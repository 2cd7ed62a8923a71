/** The format registry as the negotiator sees it. The registry itself and the
    codecs are foreign code: a format is a record of its weight, its mime type,
    its `supported?` predicate and its four codec operations, each of which may
    fail. */
module Formats {
  import opened Results

  /** The name of a serialisable class (the receiver of the class methods). */
  type ClassName = string

  /** An instance of a serialisable class: its class and its state. */
  datatype Instance<V> = Instance(klass: ClassName, state: V)

  /** A format descriptor. */
  datatype Format<!V> = Format(
    weight: int,
    mime: string,
    supported: ClassName -> bool,
    intern: (ClassName, string) -> Result<Instance<V>>,
    internMultiple: (ClassName, string) -> Result<seq<Instance<V>>>,
    render: Instance<V> -> Result<string>,
    renderMultiple: seq<Instance<V>> -> Result<string>)

  /** The registry: `table` maps each registered name to its descriptor, and
      `names` is the order in which the registry enumerates its names. */
  datatype Registry<!V> = Registry(names: seq<Name>, table: map<Name, Format<V>>)
  {
    /** The registry enumerates every registered name exactly once and
        nothing else (the names are the keys of a hash). */
    ghost predicate Valid()
    {
      forall n :: multiset(names)[n] == if n in table then 1 else 0
    }
  }

  /** Every name of `s` is registered. */
  ghost predicate AllRegistered<V>(table: map<Name, Format<V>>, s: seq<Name>)
  {
    forall n :: n in s ==> n in table
  }

  /** The format named `n` is registered and supports `klass`. */
  ghost predicate Supports<V>(table: map<Name, Format<V>>, n: Name, klass: ClassName)
  {
    n in table && table[n].supported(klass)
  }
}
