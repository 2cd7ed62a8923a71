# Format negotiation of `Puppet::Network::FormatSupport`

A Dafny model of the mixin that gives Puppet's serialisable classes their
network formats (`lib/puppet/network/format_support.rb`). For a class it
computes the formats to offer and their order (`supported_formats`): every
registered format whose `supported?` accepts the class, heaviest first, with
the `preferred_serialization_format` setting moved to the front when it is one
of them. The head of that list is `default_format`. The class methods
`convert_from`, `convert_from_multiple` and `render_multiple` and the instance
methods `render` and `mime` dispatch to a format's codec. Any failure of the
lookup or the codec comes back as one `FormatError` whose message names the
operation and the format. The instance methods resolve an omitted format to
the class's default.

Layout:

- `results.dfy` (module `Results`): format names, `Option` (Ruby's `nil`), the
  failures (`NotRegistered`, `Raised` for a codec's exception, `FormatError`)
  and `Result`.
- `formats.dfy` (module `Formats`): the registry as the negotiator sees it.
  `Registry(names, table)` maps each name to a `Format` (weight, mime type,
  `supported?` predicate and four codec functions that may fail). `names` is
  the order in which the registry enumerates its names. `Registry.Valid()`
  says every registered name is enumerated exactly once, as the keys of a hash
  are.
- `weight_order.dfy` (module `WeightOrder`): the `find_all`/`collect` filter
  and the descending weight sort.
- `preferred.dfy` (module `Preferred`): `put_preferred_format_first`. It is an
  imperative method (`PutPreferredFirst`) proved equal to the function
  `MoveToFront`, and `MoveToFront`'s properties are proved as lemmas.
  `Without` is Ruby's `Array#delete`.
- `format_support.dfy` (module `FormatSupport`): `supported_formats`,
  `default_format`, `support_format?`, `get_format`, the error-wrapping
  dispatch and the instance methods.

The registry and its codecs, and the preferred-format setting, are explicit
parameters. Every call reads them afresh, so there is no cached state.

Behaviour of the code worth noting:

- `support_format?` with an unregistered name does not answer `false`. The code
  calls `supported?` on what the registry returns for the name, and the
  registry returns no format, so the call fails. The model returns
  `Err(NotRegistered(name))`.
- A lookup failure inside `convert_from`, `convert_from_multiple`,
  `render_multiple`, `render` or `mime` is wrapped in `FormatError`, because the
  `rescue` clause also covers `get_format`. Only a direct `get_format` call
  fails unwrapped.
- When no format supports the class, `default_format` is `nil` (`None`), not an
  error. `render`/`mime` without a format then fail with a `FormatError` whose
  message names the empty format (`"Could not render to : ..."`), because Ruby
  interpolates `nil` as the empty string.

Ruby's `sort` is not stable. The model sorts with an insertion sort, which is
one admissible outcome. What is proved holds for every admissible outcome:
the result is a permutation of its input and its weights do not increase.
Nothing is claimed about the order among equal weights.

## Model

| member | source | states |
|---|---|---|
| `WeightOrder.SupportedNames` | lib/puppet/network/format_support.rb:37 | each name occurs in the filtered list as often as in the enumeration when its format supports the class, and not at all otherwise |
| `WeightOrder.Insert` | lib/puppet/network/format_support.rb:37-40 | the insertion step of the weight sort keeps every name registered; `InsertPermutes` proves it adds exactly the inserted name, and `InsertKeepsSorted` proves it keeps a weight-sorted list sorted |
| `WeightOrder.SortByWeight` | lib/puppet/network/format_support.rb:37-40 | the weight sort (`sort { weight(b) <=> weight(a) }`) keeps every name registered; `SortPermutes` and `SortIsSorted` prove it returns a permutation in non-increasing weight order |
| `WeightOrder.SortPermutes` | lib/puppet/network/format_support.rb:37-40 | the weight sort returns a permutation of the supported names |
| `WeightOrder.SortIsSorted` | lib/puppet/network/format_support.rb:37-40 | after the sort, weights do not increase along the list (higher weight first) |
| `Preferred.PutPreferredFirst` | lib/puppet/network/format_support.rb:68-77 | the scan-delete-unshift procedure returns exactly `MoveToFront(list, preferred)` |
| `Preferred.Without` | lib/puppet/network/format_support.rb:71 | `Array#delete` never lengthens the list; `WithoutMembers` (no copy of the deleted name is left, everything else is kept) and `WithoutCounts` (every other count is kept) state exactly what it keeps |
| `Preferred.WithoutMembers` | lib/puppet/network/format_support.rb:71 | `Array#delete` keeps exactly the elements different from the deleted one |
| `Preferred.WithoutCounts` | lib/puppet/network/format_support.rb:71 | `Array#delete` drops every copy of the deleted element and keeps every copy of the others |
| `Preferred.MoveToFront` | lib/puppet/network/format_support.rb:68-77 | the preferred name is in the result iff it was in the list, and then at index 0; an absent preferred name leaves the list unchanged; `MoveToFrontSpec` and `MoveToFrontPermutes` state the relative order and the permutation |
| `Preferred.MoveToFrontSpec` | lib/puppet/network/format_support.rb:68-77 | a present preferred name ends at index 0; the others keep their relative order; the names are kept, the preferred one counted once; an absent preferred name leaves the list unchanged |
| `Preferred.MoveToFrontPermutes` | lib/puppet/network/format_support.rb:68-77 | with at most one copy of the preferred name, the result is a permutation of the input of the same length |
| `FormatSupport.ByWeight` | lib/puppet/network/format_support.rb:37-40 | the filtered, sorted list holds each registered name whose format supports the class exactly once and nothing else, in non-increasing weight order |
| `FormatSupport.SupportedFormats` | lib/puppet/network/format_support.rb:36-47 | `supported_formats` holds each registered name whose format supports the class exactly once and nothing else; the preferred name is in it iff it supports the class, and then at index 0; the move keeps the length and the relative order of the other names; a preferred name that is no candidate leaves the weight order unchanged |
| `FormatSupport.SupportedFormatsOrdered` | lib/puppet/network/format_support.rb:37-42 | without the preferred name the list is in non-increasing weight order; it is sorted from index 1 on; it is wholly sorted when the preferred format is not a candidate |
| `FormatSupport.InapplicablePreferenceIgnored` | lib/puppet/network/format_support.rb:68-76 | any two settings that name no candidate give the same list |
| `FormatSupport.SupportedFormatsHead` | lib/puppet/network/format_support.rb:36-47 | the list is empty iff no registered format supports the class; its head supports the class; it is the preferred format when that one applies, else a format of greatest weight |
| `FormatSupport.DefaultFormat` | lib/puppet/network/format_support.rb:28-30 | the default is `nil` iff no format supports the class; otherwise it supports the class, is the preferred format when that one applies, and else has the greatest weight among the supported formats |
| `FormatSupport.SupportFormat` | lib/puppet/network/format_support.rb:32-34 | answers exactly for registered names (an unregistered name fails with `NotRegistered`); the answer is true iff the format supports the class |
| `FormatSupport.SupportFormatMatchesSupportedFormats` | lib/puppet/network/format_support.rb:32-47 | `support_format?` is true iff the name is in `supported_formats` and false iff it is registered but not in the list, whatever the preferred setting |
| `FormatSupport.GetFormat` | lib/puppet/network/format_support.rb:50-52 | the lookup succeeds iff a name is given and registered, and then yields that name's descriptor; otherwise it fails with `NotRegistered` |
| `FormatSupport.Rescue` | lib/puppet/network/format_support.rb:10-26 | success passes through unchanged; a failure becomes one `FormatError` whose message starts "Could not <op> from/to <format>: " and ends with the original message |
| `FormatSupport.ConvertFrom` | lib/puppet/network/format_support.rb:10-14 | succeeds iff the format is registered and its `intern` succeeds, returning `intern`'s result; a lookup or codec failure surfaces as `FormatError` "Could not intern from <format>: <cause>" |
| `FormatSupport.ConvertFromMultiple` | lib/puppet/network/format_support.rb:16-20 | the same for `intern_multiple`, with "Could not intern_multiple from <format>: <cause>" |
| `FormatSupport.RenderMultiple` | lib/puppet/network/format_support.rb:22-26 | the same for `render_multiple`, with "Could not render_multiple to <format>: <cause>" |
| `FormatSupport.ResolveFormat` | lib/puppet/network/format_support.rb:81 | an explicit format is used as given; an omitted one is `default_format` (the preferred format when that applies, else a supported format of greatest weight, and `nil` iff no format supports the class) |
| `FormatSupport.Render` | lib/puppet/network/format_support.rb:80-86 | renders with the resolved format's codec and returns its output unchanged; a missing format or a codec failure surfaces as `FormatError` "Could not render to <format>: <cause>" |
| `FormatSupport.Mime` | lib/puppet/network/format_support.rb:88-94 | yields the resolved format's mime type; an unresolvable format surfaces as `FormatError` "Could not mime to <format>: <cause>" |
| `FormatSupport.InstanceSupportFormat` | lib/puppet/network/format_support.rb:96-98 | fails iff the name is unregistered; true iff the format supports the object's class |
| `FormatSupport.RenderOmittedFormat` | lib/puppet/network/format_support.rb:80-83 | `render(nil)` equals `render(default_format)`; it renders with the preferred format when that applies; with no supported format it fails, naming the empty format |
| `FormatSupport.RenderExplicitFormat` | lib/puppet/network/format_support.rb:80-83 | with an explicit format the result does not depend on the preferred setting |
| `FormatSupport.MimeOmittedFormat` | lib/puppet/network/format_support.rb:88-91 | `mime(nil)` equals `mime(default_format)`, and is the preferred format's mime type when that applies |

## Left out

- Debug logging (`Puppet.debug`, format_support.rb:44 and :74) is advisory output and never affects results.
- `friendly_name` (format_support.rb:60-66) only feeds log text.
- The mixin mechanics (`self.included`/`extend`, format_support.rb:5-7). The class methods take the class name as a parameter, and the instance methods take an `Instance` that carries its class.
- `FormatHandler` internals: `format_for` also accepts aliases and mime types and canonicalises them. The model looks formats up by name only. The registry's own not-found message is not visible, so `NotRegistered` carries a fixed text.
- The concrete codecs are function-valued fields of `Format` that may fail. Their behaviour is not modelled.
- `Puppet.settings` and `.to_sym`: the preferred format is a plain `Name` parameter.
- Backtraces and Ruby's exception hierarchy. Only "a `FormatError` with this message" versus the original failure is kept. `rescue` catches every failure in the model, not only `StandardError`.
- A `supported?` predicate or weight accessor that raises while `supported_formats` runs. Both are total functions here.
- `format ||= ...` also replaces `false`. The model has only "given" and "omitted" (`nil`).
- `Registry.Valid()` (each registered name enumerated once) is a precondition of the members that enumerate the registry. A Ruby hash always satisfies it.
