/** `Puppet::Network::FormatSupport`: for a serialisable class, which formats
    to offer and in which order, which one is the default, and the dispatch
    of intern/render calls to a format with uniform error wrapping.

    The registry (`FormatHandler`), the codecs and the preferred-format
    setting are inputs: the registry and its codecs as a `Registry`, the
    setting as the `preferred` parameter, read afresh by every call. */
module FormatSupport {
  import opened Results
  import opened Formats
  import opened WeightOrder
  import opened Preferred

  // ---------------------------------------------------------------------
  // Class methods: negotiation
  // ---------------------------------------------------------------------

  /** The supported names sorted by weight, before the preferred format is
      moved (the filter and the weight sort of `supported_formats`): each registered name that
      supports the class exactly once, heaviest first. */
  function ByWeight<V>(reg: Registry<V>, klass: ClassName): (r: seq<Name>)
    requires reg.Valid()
    ensures AllRegistered(reg.table, r)
    ensures SortedByWeight(reg.table, r)
    ensures forall n :: multiset(r)[n] == if Supports(reg.table, n, klass) then 1 else 0
  {
    var candidates := SupportedNames(reg.table, klass, reg.names);
    SortIsSorted(reg.table, candidates);
    SortPermutes(reg.table, candidates);
    SortByWeight(reg.table, candidates)
  }

  /** `supported_formats`: each registered name whose format supports
      `klass` exactly once and nothing else; the preferred name is present
      exactly when it supports the class, and then at index 0; the move keeps
      the length and the relative order of the other names, which are in
      weight order; a preferred name that is not a candidate leaves the
      weight order unchanged. */
  function SupportedFormats<V>(reg: Registry<V>, klass: ClassName, preferred: Name): (r: seq<Name>)
    requires reg.Valid()
    ensures forall n :: multiset(r)[n] == if Supports(reg.table, n, klass) then 1 else 0
    ensures forall n :: n in r <==> Supports(reg.table, n, klass)
    ensures Supports(reg.table, preferred, klass) ==> |r| > 0 && r[0] == preferred
    ensures |r| == |ByWeight(reg, klass)|
    ensures Without(r, preferred) == Without(ByWeight(reg, klass), preferred)
    ensures !Supports(reg.table, preferred, klass) ==> r == ByWeight(reg, klass)
  {
    var sorted := ByWeight(reg, klass);
    assert preferred in sorted <==> preferred in multiset(sorted);
    MoveToFrontSpec(sorted, preferred);
    MoveToFrontPermutes(sorted, preferred);
    var r := MoveToFront(sorted, preferred);
    assert forall n :: n in r <==> n in multiset(r);
    r
  }

  /** Removing the preferred name leaves the list in non-increasing weight
      order; the list is sorted from index 1 on, and wholly sorted when the
      preferred format was not among the candidates. Nothing is said about
      the order among equal weights. */
  lemma SupportedFormatsOrdered<V>(reg: Registry<V>, klass: ClassName, preferred: Name)
    requires reg.Valid()
    ensures AllRegistered(reg.table, SupportedFormats(reg, klass, preferred))
    ensures var r := SupportedFormats(reg, klass, preferred);
      AllRegistered(reg.table, Without(r, preferred)) && SortedByWeight(reg.table, Without(r, preferred))
    ensures var r := SupportedFormats(reg, klass, preferred);
      |r| > 0 ==> AllRegistered(reg.table, r[1..]) && SortedByWeight(reg.table, r[1..])
    ensures var r := SupportedFormats(reg, klass, preferred);
      preferred !in r ==> SortedByWeight(reg.table, r)
  {
    var sorted := ByWeight(reg, klass);
    var r := SupportedFormats(reg, klass, preferred);
    WithoutKeepsSorted(reg.table, sorted, preferred);
    if preferred in sorted {
      assert r == [preferred] + Without(sorted, preferred);
      assert r[1..] == Without(sorted, preferred);
      MoveToFrontKeepsOrder(sorted, preferred);
    } else {
      assert r == sorted;
      WithoutAbsent(sorted, preferred);
    }
  }

  /** A preferred-format setting that names no candidate has no effect:
      every such setting yields the same list, the weight order. */
  lemma InapplicablePreferenceIgnored<V>(reg: Registry<V>, klass: ClassName, p1: Name, p2: Name)
    requires reg.Valid()
    requires !Supports(reg.table, p1, klass) && !Supports(reg.table, p2, klass)
    ensures SupportedFormats(reg, klass, p1) == SupportedFormats(reg, klass, p2)
  {
  }

  /** Dropping elements keeps a weight-sorted list sorted. */
  lemma {:induction false} WithoutKeepsSorted<V>(table: map<Name, Format<V>>, s: seq<Name>, p: Name)
    requires AllRegistered(table, s) && SortedByWeight(table, s)
    ensures AllRegistered(table, Without(s, p)) && SortedByWeight(table, Without(s, p))
  {
    WithoutMembers(s, p);
    if s != [] {
      var init, last := s[..|s| - 1], s[|s| - 1];
      WithoutKeepsSorted(table, init, p);
      if last != p {
        var w := Without(init, p);
        WithoutMembers(init, p);
        forall k | 0 <= k < |w|
          ensures table[w[k]].weight >= table[last].weight
        {
          assert w[k] in init;
          var j :| 0 <= j < |init| && init[j] == w[k];
          assert s[j] == w[k];
        }
      }
    }
  }

  /** The head of `supported_formats` exists exactly when some registered
      format supports the class; it supports the class; it is the preferred
      format when that one supports the class, and otherwise a format of
      greatest weight among those that do. */
  lemma SupportedFormatsHead<V>(reg: Registry<V>, klass: ClassName, preferred: Name)
    requires reg.Valid()
    ensures var r := SupportedFormats(reg, klass, preferred);
      |r| == 0 <==> forall n :: n in reg.table ==> !reg.table[n].supported(klass)
    ensures var r := SupportedFormats(reg, klass, preferred);
      |r| > 0 ==> Supports(reg.table, r[0], klass)
    ensures var r := SupportedFormats(reg, klass, preferred);
      Supports(reg.table, preferred, klass) ==> |r| > 0 && r[0] == preferred
    ensures var r := SupportedFormats(reg, klass, preferred);
      |r| > 0 && !Supports(reg.table, preferred, klass) ==>
      forall n :: Supports(reg.table, n, klass) ==> reg.table[n].weight <= reg.table[r[0]].weight
  {
  }

  /** `default_format`: the head of `supported_formats`, or `nil` (here
      `None`) when no registered format supports the class. */
  function DefaultFormat<V>(reg: Registry<V>, klass: ClassName, preferred: Name): (d: Option<Name>)
    requires reg.Valid()
    ensures d.None? <==> forall n :: n in reg.table ==> !reg.table[n].supported(klass)
    ensures d.Some? ==> Supports(reg.table, d.value, klass)
    ensures Supports(reg.table, preferred, klass) ==> d == Some(preferred)
    ensures d.Some? && !Supports(reg.table, preferred, klass) ==>
      forall n :: Supports(reg.table, n, klass) ==> reg.table[n].weight <= reg.table[d.value].weight
  {
    var r := SupportedFormats(reg, klass, preferred);
    SupportedFormatsHead(reg, klass, preferred);
    if |r| == 0 then None else Some(r[0])
  }

  /** `support_format?` (class method): asks the registered format directly,
      whatever the ordering or the preferred setting. An unregistered name
      fails: the registry yields no format whose `supported?` could be asked. */
  function SupportFormat<V>(reg: Registry<V>, klass: ClassName, name: Name): (r: Result<bool>)
    ensures r.Ok? <==> name in reg.table
    ensures r.Err? ==> r.error == NotRegistered(Some(name))
    ensures r == Ok(true) <==> Supports(reg.table, name, klass)
  {
    if name in reg.table then Ok(reg.table[name].supported(klass))
    else Err(NotRegistered(Some(name)))
  }

  /** `support_format?` agrees with membership in `supported_formats`, for
      every value of the preferred-format setting. */
  lemma SupportFormatMatchesSupportedFormats<V>(reg: Registry<V>, klass: ClassName, name: Name, preferred: Name)
    requires reg.Valid()
    ensures SupportFormat(reg, klass, name) == Ok(true) <==> name in SupportedFormats(reg, klass, preferred)
    ensures SupportFormat(reg, klass, name) == Ok(false) <==>
      name in reg.table && name !in SupportedFormats(reg, klass, preferred)
  {
  }

  /** `get_format`: the registry lookup; an unregistered name (or `nil`)
      fails, unwrapped. */
  function GetFormat<V>(reg: Registry<V>, name: Option<Name>): (r: Result<Format<V>>)
    ensures r.Ok? <==> name.Some? && name.value in reg.table
    ensures r.Ok? ==> r.value == reg.table[name.value]
    ensures r.Err? ==> r.error == NotRegistered(name)
  {
    match name
    case Some(n) => if n in reg.table then Ok(reg.table[n]) else Err(NotRegistered(name))
    case None => Err(NotRegistered(name))
  }

  // ---------------------------------------------------------------------
  // Dispatch with uniform error wrapping
  // ---------------------------------------------------------------------

  /** The five dispatch operations, as their error messages name them. */
  datatype Operation = InternOp | InternMultipleOp | RenderMultipleOp | RenderOp | MimeOp

  /** The head of a wrapped message: "Could not <op> from/to <format>: ". */
  function Describe(op: Operation, format: Option<Name>): string
  {
    var phrase := match op
      case InternOp => "intern from"
      case InternMultipleOp => "intern_multiple from"
      case RenderMultipleOp => "render_multiple to"
      case RenderOp => "render to"
      case MimeOp => "mime to";
    "Could not " + phrase + " " + Text(format) + ": "
  }

  /** The `rescue => err; raise FormatError, ...` clause: success passes
      through unchanged; any failure becomes one `FormatError` whose message
      names the operation and the format and ends with the original message. */
  function Rescue<T>(op: Operation, format: Option<Name>, attempt: Result<T>): (r: Result<T>)
    ensures r.Ok? <==> attempt.Ok?
    ensures r.Ok? ==> r.value == attempt.value
    ensures r.Err? ==> r.error.FormatError?
    ensures r.Err? ==> Describe(op, format) <= r.error.message
    ensures r.Err? ==> r.error.message[|Describe(op, format)|..] == Message(attempt.error)
  {
    match attempt
    case Ok(_) => attempt
    case Err(e) => Err(FormatError(Describe(op, format) + Message(e)))
  }

  /** `convert_from`: intern one instance of `klass` from `data`. */
  function ConvertFrom<V>(reg: Registry<V>, klass: ClassName, format: Name, data: string): (r: Result<Instance<V>>)
    ensures r.Ok? <==> format in reg.table && reg.table[format].intern(klass, data).Ok?
    ensures r.Ok? ==> r == reg.table[format].intern(klass, data)
    ensures format !in reg.table ==>
      r == Err(FormatError(Describe(InternOp, Some(format)) + Message(NotRegistered(Some(format)))))
    ensures format in reg.table && reg.table[format].intern(klass, data).Err? ==>
      r == Err(FormatError(Describe(InternOp, Some(format)) + Message(reg.table[format].intern(klass, data).error)))
  {
    Rescue(InternOp, Some(format),
      match GetFormat(reg, Some(format))
      case Ok(f) => f.intern(klass, data)
      case Err(e) => Err(e))
  }

  /** `convert_from_multiple`: intern a sequence of instances of `klass`. */
  function ConvertFromMultiple<V>(reg: Registry<V>, klass: ClassName, format: Name, data: string): (r: Result<seq<Instance<V>>>)
    ensures r.Ok? <==> format in reg.table && reg.table[format].internMultiple(klass, data).Ok?
    ensures r.Ok? ==> r == reg.table[format].internMultiple(klass, data)
    ensures format !in reg.table ==>
      r == Err(FormatError(Describe(InternMultipleOp, Some(format)) + Message(NotRegistered(Some(format)))))
    ensures format in reg.table && reg.table[format].internMultiple(klass, data).Err? ==>
      r == Err(FormatError(Describe(InternMultipleOp, Some(format)) + Message(reg.table[format].internMultiple(klass, data).error)))
  {
    Rescue(InternMultipleOp, Some(format),
      match GetFormat(reg, Some(format))
      case Ok(f) => f.internMultiple(klass, data)
      case Err(e) => Err(e))
  }

  /** `render_multiple`: render a sequence of instances. */
  function RenderMultiple<V>(reg: Registry<V>, format: Name, instances: seq<Instance<V>>): (r: Result<string>)
    ensures r.Ok? <==> format in reg.table && reg.table[format].renderMultiple(instances).Ok?
    ensures r.Ok? ==> r == reg.table[format].renderMultiple(instances)
    ensures format !in reg.table ==>
      r == Err(FormatError(Describe(RenderMultipleOp, Some(format)) + Message(NotRegistered(Some(format)))))
    ensures format in reg.table && reg.table[format].renderMultiple(instances).Err? ==>
      r == Err(FormatError(Describe(RenderMultipleOp, Some(format)) + Message(reg.table[format].renderMultiple(instances).error)))
  {
    Rescue(RenderMultipleOp, Some(format),
      match GetFormat(reg, Some(format))
      case Ok(f) => f.renderMultiple(instances)
      case Err(e) => Err(e))
  }

  // ---------------------------------------------------------------------
  // Instance methods
  // ---------------------------------------------------------------------

  /** `format ||= self.class.default_format`: an explicit format is used as
      it is; an omitted one is the class's default, itself possibly `nil`. */
  function ResolveFormat<V>(reg: Registry<V>, klass: ClassName, preferred: Name, format: Option<Name>): (f: Option<Name>)
    requires reg.Valid()
    ensures format.Some? ==> f == format
    ensures format.None? ==> f == DefaultFormat(reg, klass, preferred)
    ensures format.None? && Supports(reg.table, preferred, klass) ==> f == Some(preferred)
    ensures format.None? ==> (f.None? <==> forall n :: n in reg.table ==> !reg.table[n].supported(klass))
  {
    if format.Some? then format else DefaultFormat(reg, klass, preferred)
  }

  /** `render`: render `obj` in the resolved format. */
  function Render<V>(reg: Registry<V>, preferred: Name, obj: Instance<V>, format: Option<Name>): (r: Result<string>)
    requires reg.Valid()
    ensures var f := ResolveFormat(reg, obj.klass, preferred, format);
      r.Ok? <==> f.Some? && f.value in reg.table && reg.table[f.value].render(obj).Ok?
    ensures var f := ResolveFormat(reg, obj.klass, preferred, format);
      r.Ok? ==> r == reg.table[f.value].render(obj)
    ensures var f := ResolveFormat(reg, obj.klass, preferred, format);
      f.None? || f.value !in reg.table ==>
      r == Err(FormatError(Describe(RenderOp, f) + Message(NotRegistered(f))))
    ensures var f := ResolveFormat(reg, obj.klass, preferred, format);
      f.Some? && f.value in reg.table && reg.table[f.value].render(obj).Err? ==>
      r == Err(FormatError(Describe(RenderOp, f) + Message(reg.table[f.value].render(obj).error)))
  {
    var f := ResolveFormat(reg, obj.klass, preferred, format);
    Rescue(RenderOp, f,
      match GetFormat(reg, f)
      case Ok(fm) => fm.render(obj)
      case Err(e) => Err(e))
  }

  /** `mime`: the mime type of the resolved format. */
  function Mime<V>(reg: Registry<V>, preferred: Name, obj: Instance<V>, format: Option<Name>): (r: Result<string>)
    requires reg.Valid()
    ensures var f := ResolveFormat(reg, obj.klass, preferred, format);
      r.Ok? <==> f.Some? && f.value in reg.table
    ensures var f := ResolveFormat(reg, obj.klass, preferred, format);
      r.Ok? ==> r.value == reg.table[f.value].mime
    ensures var f := ResolveFormat(reg, obj.klass, preferred, format);
      r.Err? ==> r == Err(FormatError(Describe(MimeOp, f) + Message(NotRegistered(f))))
  {
    var f := ResolveFormat(reg, obj.klass, preferred, format);
    Rescue(MimeOp, f,
      match GetFormat(reg, f)
      case Ok(fm) => Ok(fm.mime)
      case Err(e) => Err(e))
  }

  /** `support_format?` (instance method): the class method on the object's
      class. */
  function InstanceSupportFormat<V>(reg: Registry<V>, obj: Instance<V>, name: Name): (r: Result<bool>)
    ensures r.Err? <==> name !in reg.table
    ensures r == Ok(true) <==> Supports(reg.table, name, obj.klass)
  {
    SupportFormat(reg, obj.klass, name)
  }

  /** `render(nil)` is `render(default_format)`: with the preferred format
      when the class supports it, and a failure naming an empty format when
      no format supports the class. */
  lemma RenderOmittedFormat<V>(reg: Registry<V>, preferred: Name, obj: Instance<V>)
    requires reg.Valid()
    ensures Render(reg, preferred, obj, None) ==
            Render(reg, preferred, obj, DefaultFormat(reg, obj.klass, preferred))
    ensures Supports(reg.table, preferred, obj.klass) ==>
      Render(reg, preferred, obj, None) == Render(reg, preferred, obj, Some(preferred))
    ensures (forall n :: n in reg.table ==> !reg.table[n].supported(obj.klass)) ==>
      Render(reg, preferred, obj, None) ==
      Err(FormatError(Describe(RenderOp, None) + Message(NotRegistered(None))))
  {
  }

  /** An explicit format is used as given, whatever the preferred setting. */
  lemma RenderExplicitFormat<V>(reg: Registry<V>, p1: Name, p2: Name, obj: Instance<V>, format: Name)
    requires reg.Valid()
    ensures Render(reg, p1, obj, Some(format)) == Render(reg, p2, obj, Some(format))
  {
  }

  /** `mime(nil)` is `mime(default_format)`, and an explicit format is used
      as given. */
  lemma MimeOmittedFormat<V>(reg: Registry<V>, preferred: Name, obj: Instance<V>)
    requires reg.Valid()
    ensures Mime(reg, preferred, obj, None) ==
            Mime(reg, preferred, obj, DefaultFormat(reg, obj.klass, preferred))
    ensures Supports(reg.table, preferred, obj.klass) ==>
      Mime(reg, preferred, obj, None) == Ok(reg.table[preferred].mime)
  {
  }
}
