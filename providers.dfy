/**
 * The service-provider registry: lazy bundles of definitions. A provider
 * claims a set of ids and adds its definitions to the definition registry
 * the first time it is asked for one of them, and never again.
 */
module Providers {
  import opened Types
  import Search
  import Definitions

  /**
   * `definitions` are what the provider's registration action adds, each
   * with the shared flag and tags the provider gives it.
   */
  datatype Provider = Provider(claimed: set<Id>, registered: bool, definitions: seq<Definitions.Definition>)

  /** Some provider in the registry claims `id`. */
  predicate Provides(ps: seq<Provider>, id: Id)
    ensures Provides(ps, id) <==> exists p :: p in ps && id in p.claimed
  {
    exists i :: 0 <= i < |ps| && id in ps[i].claimed
  }

  function Claims(id: Id): Provider -> bool
  {
    (p: Provider) => id in p.claimed
  }

  /** The first provider that claims `id`, if any. */
  function Claimant(ps: seq<Provider>, id: Id): (k: Option<nat>)
    ensures k.Some? <==> Provides(ps, id)
    ensures k.Some? ==> k.value < |ps| && id in ps[k.value].claimed
    ensures k.Some? ==> forall j :: 0 <= j < k.value ==> id !in ps[j].claimed
  {
    Search.First(ps, Claims(id))
  }

  /** Definitions as a registration action creates them: nothing cached yet. */
  function Unresolved(ds: seq<Definitions.Definition>): seq<Definitions.Definition>
  {
    seq(|ds|, n requires 0 <= n < |ds| => ds[n].(resolved := None))
  }

  /**
   * `register(id)`: runs the registration action of the first provider
   * claiming `id`, unless that provider has already been registered; it
   * appends the provider's definitions and marks the provider registered.
   */
  function Register(ps: seq<Provider>, r: Definitions.Registry, id: Id): (res: (seq<Provider>, Definitions.Registry))
    ensures |res.0| == |ps|
    ensures forall i :: 0 <= i < |ps| ==>
      res.0[i].claimed == ps[i].claimed && res.0[i].definitions == ps[i].definitions
    ensures forall i :: 0 <= i < |ps| ==>
      (res.0[i].registered <==> ps[i].registered || Claimant(ps, id) == Some(i))
    ensures res.1.built == r.built
    ensures r.defs <= res.1.defs
    ensures Provides(ps, id) && !ps[Claimant(ps, id).value].registered ==>
      res.1.defs == r.defs + Unresolved(ps[Claimant(ps, id).value].definitions)
    ensures Definitions.Valid(r) ==> Definitions.Valid(res.1)
    ensures Claimant(ps, id).None? || ps[Claimant(ps, id).value].registered ==> res == (ps, r)
  {
    match Claimant(ps, id)
    case None => (ps, r)
    case Some(k) =>
      if ps[k].registered then (ps, r)
      else (ps[k := ps[k].(registered := true)],
            Definitions.Registry(r.defs + Unresolved(ps[k].definitions), r.built))
  }

  /** The first claimant depends only on what each provider claims. */
  lemma ClaimantByClaims(ps: seq<Provider>, qs: seq<Provider>, id: Id)
    requires |ps| == |qs|
    requires forall i :: 0 <= i < |ps| ==> ps[i].claimed == qs[i].claimed
    ensures Claimant(ps, id) == Claimant(qs, id)
  {
    var k, m := Claimant(ps, id), Claimant(qs, id);
    if k.Some? && m.Some? {
      assert !(k.value < m.value) && !(m.value < k.value);
    }
  }

  /**
   * A provider's registration action runs at most once: once `register(a)`
   * has run, a `register(b)` whose first claimant is the same provider
   * changes nothing, in any later state that keeps the providers' claims
   * and registered flags, whatever the definitions have become meanwhile.
   */
  lemma RegisterRunsOnce(ps: seq<Provider>, r: Definitions.Registry, a: Id, b: Id,
                         later: seq<Provider>, current: Definitions.Registry)
    requires Claimant(ps, a).Some? && Claimant(ps, a) == Claimant(ps, b)
    requires |later| == |ps|
    requires forall i :: 0 <= i < |ps| ==> later[i].claimed == ps[i].claimed
    requires forall i :: 0 <= i < |ps| && Register(ps, r, a).0[i].registered ==> later[i].registered
    ensures Register(later, current, b) == (later, current)
  {
    ClaimantByClaims(ps, later, b);
    var k := Claimant(ps, a).value;
    assert Register(ps, r, a).0[k].registered;
  }
}
