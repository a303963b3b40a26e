/**
 * The inflector registry: callbacks applied to every value that leaves the
 * container. Each inflector's type test and callback are opaque total
 * functions on values.
 */
module Inflectors {
  import opened Types

  datatype Inflector = Inflector(matches: Value -> bool, callback: Value -> Value)

  /** One inflector: its callback runs only on a value its type test accepts. */
  function Apply(inflector: Inflector, v: Value): Value
  {
    if inflector.matches(v) then inflector.callback(v) else v
  }

  /**
   * `inflect`: every inflector in registration order, each on the previous
   * one's output. A value that no inflector's type test accepts is left as is.
   */
  function Inflect(inflectors: seq<Inflector>, v: Value): (r: Value)
    ensures (forall i :: 0 <= i < |inflectors| ==> !inflectors[i].matches(v)) ==> r == v
    decreases |inflectors|
  {
    if inflectors == [] then v else Inflect(inflectors[1..], Apply(inflectors[0], v))
  }

  /** A newly registered inflector runs after all earlier ones. */
  lemma {:induction false} InflectAppend(inflectors: seq<Inflector>, last: Inflector, v: Value)
    ensures Inflect(inflectors + [last], v) == Apply(last, Inflect(inflectors, v))
    decreases |inflectors|
  {
    if inflectors != [] {
      assert (inflectors + [last])[1..] == inflectors[1..] + [last];
      InflectAppend(inflectors[1..], last, Apply(inflectors[0], v));
    }
  }

  /** Every value of `vs`, inflected on its own. */
  function InflectEach(inflectors: seq<Inflector>, vs: seq<Value>): seq<Value>
  {
    seq(|vs|, n requires 0 <= n < |vs| => Inflect(inflectors, vs[n]))
  }
}
