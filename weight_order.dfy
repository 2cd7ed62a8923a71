/** The filter and the weight sort of `supported_formats`: keep the names
    whose format supports the class, then sort them by weight, highest first.
    Ruby's `sort` is not stable, so nothing below depends on the order among
    equal weights: the insertion sort here is one admissible outcome, and only
    what every admissible outcome satisfies is proved about it. */
module WeightOrder {
  import opened Results
  import opened Formats

  /** Weights do not increase along `s`. */
  ghost predicate SortedByWeight<V>(table: map<Name, Format<V>>, s: seq<Name>)
    requires AllRegistered(table, s)
  {
    forall i, j :: 0 <= i < j < |s| ==> table[s[i]].weight >= table[s[j]].weight
  }

  /** `find_all { |f| f.supported?(klass) }.collect { |f| f.name }` over the
      enumerated names. */
  function SupportedNames<V>(table: map<Name, Format<V>>, klass: ClassName, names: seq<Name>): (r: seq<Name>)
    requires AllRegistered(table, names)
    ensures forall n :: multiset(r)[n] == if Supports(table, n, klass) then multiset(names)[n] else 0
    ensures forall n :: n in r ==> Supports(table, n, klass)
  {
    if names == [] then []
    else
      var rest := SupportedNames(table, klass, names[1..]);
      assert names == [names[0]] + names[1..];
      if table[names[0]].supported(klass) then [names[0]] + rest else rest
  }

  /** Places `x` in front of the first element that weighs no more than it. */
  function Insert<V>(table: map<Name, Format<V>>, x: Name, s: seq<Name>): (r: seq<Name>)
    requires x in table && AllRegistered(table, s)
    ensures AllRegistered(table, r)
  {
    if s == [] || table[s[0]].weight <= table[x].weight then [x] + s
    else [s[0]] + Insert(table, x, s[1..])
  }

  /** The weight sort: `sort { |a, b| weight(b) <=> weight(a) }`. */
  function SortByWeight<V>(table: map<Name, Format<V>>, s: seq<Name>): (r: seq<Name>)
    requires AllRegistered(table, s)
    ensures AllRegistered(table, r)
  {
    if s == [] then [] else Insert(table, s[0], SortByWeight(table, s[1..]))
  }

  lemma {:induction false} InsertPermutes<V>(table: map<Name, Format<V>>, x: Name, s: seq<Name>)
    requires x in table && AllRegistered(table, s)
    ensures multiset(Insert(table, x, s)) == multiset(s) + multiset{x}
  {
    if s == [] || table[s[0]].weight <= table[x].weight {
    } else {
      InsertPermutes(table, x, s[1..]);
      assert s == [s[0]] + s[1..];
    }
  }

  lemma {:induction false} InsertKeepsSorted<V>(table: map<Name, Format<V>>, x: Name, s: seq<Name>)
    requires x in table && AllRegistered(table, s)
    requires SortedByWeight(table, s)
    ensures SortedByWeight(table, Insert(table, x, s))
  {
    if s == [] || table[s[0]].weight <= table[x].weight {
    } else {
      var tail := Insert(table, x, s[1..]);
      InsertKeepsSorted(table, x, s[1..]);
      InsertPermutes(table, x, s[1..]);
      forall k | 0 <= k < |tail|
        ensures table[s[0]].weight >= table[tail[k]].weight
      {
        assert tail[k] in multiset(tail);
        if tail[k] != x {
          assert tail[k] in multiset(s[1..]);
          var j :| 0 <= j < |s[1..]| && s[1..][j] == tail[k];
          assert s[j + 1] == tail[k];
        }
      }
    }
  }

  /** The weight sort returns a permutation of its input. */
  lemma {:induction false} SortPermutes<V>(table: map<Name, Format<V>>, s: seq<Name>)
    requires AllRegistered(table, s)
    ensures multiset(SortByWeight(table, s)) == multiset(s)
  {
    if s != [] {
      SortPermutes(table, s[1..]);
      InsertPermutes(table, s[0], SortByWeight(table, s[1..]));
      assert s == [s[0]] + s[1..];
    }
  }

  /** The weight sort puts heavier formats first. */
  lemma {:induction false} SortIsSorted<V>(table: map<Name, Format<V>>, s: seq<Name>)
    requires AllRegistered(table, s)
    ensures SortedByWeight(table, SortByWeight(table, s))
  {
    if s != [] {
      SortIsSorted(table, s[1..]);
      InsertKeepsSorted(table, s[0], SortByWeight(table, s[1..]));
    }
  }
}
