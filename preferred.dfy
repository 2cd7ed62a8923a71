/** The move that ends `supported_formats`, after the filter and the weight
    sort: `put_preferred_format_first` moves the preferred format to the front
    of the list when the list holds it, with Ruby's `Array#delete` (which
    removes every occurrence) followed by `Array#unshift`; otherwise it leaves
    the list alone. */
module Preferred {
  import opened Results

  /** `s` with every occurrence of `p` removed, the rest in order
      (`Array#delete`). Defined from the back, the way a left-to-right scan
      builds it. */
  function Without(s: seq<Name>, p: Name): (r: seq<Name>)
    ensures |r| <= |s|
  {
    if s == [] then []
    else Without(s[..|s| - 1], p) + (if s[|s| - 1] == p then [] else [s[|s| - 1]])
  }

  /** What `put_preferred_format_first` returns. */
  function MoveToFront(s: seq<Name>, p: Name): (r: seq<Name>)
    ensures p in r <==> p in s
    ensures p in s ==> |r| > 0 && r[0] == p
    ensures p !in s ==> r == s
  {
    if p in s then [p] + Without(s, p) else s
  }

  /** The imperative procedure: one scan that decides membership and builds
      the list without `preferred`, then the `unshift`. */
  method PutPreferredFirst(list: seq<Name>, preferred: Name) returns (r: seq<Name>)
    ensures r == MoveToFront(list, preferred)
  {
    var found := false;
    var kept: seq<Name> := [];
    var i := 0;
    while i < |list|
      invariant 0 <= i <= |list|
      invariant found <==> preferred in list[..i]
      invariant kept == Without(list[..i], preferred)
    {
      assert list[..i + 1][..i] == list[..i];
      assert list[..i + 1] == list[..i] + [list[i]];
      if list[i] == preferred {
        found := true;
      } else {
        kept := kept + [list[i]];
      }
      i := i + 1;
    }
    assert list[..i] == list;
    if found {
      r := [preferred] + kept;
    } else {
      r := list;
    }
  }

  /** `Without` keeps exactly the elements different from `p`. */
  lemma {:induction false} WithoutMembers(s: seq<Name>, p: Name)
    ensures forall x :: x in Without(s, p) <==> x in s && x != p
  {
    if s != [] {
      WithoutMembers(s[..|s| - 1], p);
      assert s == s[..|s| - 1] + [s[|s| - 1]];
    }
  }

  /** `Without` drops every copy of `p` and keeps every copy of anything else. */
  lemma {:induction false} WithoutCounts(s: seq<Name>, p: Name)
    ensures multiset(Without(s, p)) == multiset(s)[p := 0]
  {
    if s != [] {
      WithoutCounts(s[..|s| - 1], p);
      assert s == s[..|s| - 1] + [s[|s| - 1]];
    }
  }

  /** `Without` distributes over concatenation. */
  lemma {:induction false} WithoutAppend(a: seq<Name>, b: seq<Name>, p: Name)
    ensures Without(a + b, p) == Without(a, p) + Without(b, p)
    decreases |b|
  {
    if b == [] {
      assert a + b == a;
    } else {
      var b', x := b[..|b| - 1], b[|b| - 1];
      WithoutAppend(a, b', p);
      assert a + b != [];
      assert (a + b)[..|a + b| - 1] == a + b';
      assert (a + b)[|a + b| - 1] == x;
    }
  }

  /** Removing something absent changes nothing. */
  lemma {:induction false} WithoutAbsent(s: seq<Name>, p: Name)
    requires p !in s
    ensures Without(s, p) == s
  {
    if s != [] {
      var init, last := s[..|s| - 1], s[|s| - 1];
      assert s == init + [last];
      assert p !in init && last != p;
      WithoutAbsent(init, p);
    }
  }

  /** After the move, the names other than `p` are in their old order. */
  lemma MoveToFrontKeepsOrder(s: seq<Name>, p: Name)
    requires p in s
    ensures Without([p] + Without(s, p), p) == Without(s, p)
  {
    var w := Without(s, p);
    assert Without([p], p) == [] by {
      assert [p][..0] == [];
    }
    WithoutAppend([p], w, p);
    WithoutMembers(s, p);
    WithoutAbsent(w, p);
  }

  /** After the move, `p` is counted once and everything else as before. */
  lemma MoveToFrontCounts(s: seq<Name>, p: Name)
    requires p in s
    ensures multiset([p] + Without(s, p)) == multiset(s)[p := 1]
  {
    WithoutCounts(s, p);
  }

  /** The contract of `put_preferred_format_first`: when the list holds the
      preferred name it ends up at index 0, the other names keep their
      relative order, and the list keeps its names, with the preferred one
      counted once; otherwise the list comes back unchanged. */
  lemma MoveToFrontSpec(s: seq<Name>, p: Name)
    ensures p in s ==> |MoveToFront(s, p)| > 0 && MoveToFront(s, p)[0] == p
    ensures Without(MoveToFront(s, p), p) == Without(s, p)
    ensures multiset(MoveToFront(s, p)) == if p in s then multiset(s)[p := 1] else multiset(s)
    ensures p !in s ==> MoveToFront(s, p) == s
  {
    if p in s {
      MoveToFrontKeepsOrder(s, p);
      MoveToFrontCounts(s, p);
    }
  }

  /** Given at most one copy of the preferred name (as in a list of distinct
      names), the result is a permutation of the input: same names, same
      length. */
  lemma MoveToFrontPermutes(s: seq<Name>, p: Name)
    requires multiset(s)[p] <= 1
    ensures multiset(MoveToFront(s, p)) == multiset(s)
    ensures |MoveToFront(s, p)| == |s|
  {
    MoveToFrontSpec(s, p);
    if p in s {
      assert multiset(s)[p := 1] == multiset(s);
    }
    assert |multiset(MoveToFront(s, p))| == |multiset(s)|;
  }
}
