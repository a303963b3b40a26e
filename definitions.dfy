/**
 * The definition registry the container delegates to: identifier -> how to
 * produce a value, with a shared flag, tags and a cached instance per
 * definition. The registry keeps its definitions in registration order;
 * `built` counts the instances built so far and numbers the next one.
 *
 * Policy on a repeated alias: `Add` appends, so without `overwrite` the
 * earlier definition keeps precedence for lookups by id; with `overwrite`
 * every earlier definition of that alias is removed first.
 */
module Definitions {
  import opened Types
  import Search

  datatype Definition = Definition(
    alias: Id,
    concrete: Concrete,
    shared: bool,
    tags: set<Id>,
    resolved: Option<Value>)

  datatype Registry = Registry(defs: seq<Definition>, built: nat)

  /**
   * Every cached instance was built from its own definition's recipe, and
   * before the current build count, so a new build is distinct from it.
   */
  predicate Valid(r: Registry)
  {
    forall k :: 0 <= k < |r.defs| && r.defs[k].resolved.Some? ==>
      r.defs[k].resolved.value.concrete == r.defs[k].concrete &&
      r.defs[k].resolved.value.serial < r.built
  }

  /** `has(id)`: some definition is registered under alias `id`. */
  predicate Has(r: Registry, id: Id)
    ensures Has(r, id) <==> exists d :: d in r.defs && d.alias == id
  {
    exists k :: 0 <= k < |r.defs| && r.defs[k].alias == id
  }

  /** `hasTag(tag)`: some definition carries `tag`. */
  predicate HasTag(r: Registry, tag: Id)
    ensures HasTag(r, tag) <==> exists d :: d in r.defs && tag in d.tags
  {
    exists k :: 0 <= k < |r.defs| && tag in r.defs[k].tags
  }

  function IsAlias(id: Id): Definition -> bool
  {
    (d: Definition) => d.alias == id
  }

  /** Lookups by id take the first definition registered under that alias. */
  function IndexOf(r: Registry, id: Id): (k: nat)
    requires Has(r, id)
    ensures k < |r.defs| && r.defs[k].alias == id
    ensures forall j :: 0 <= j < k ==> r.defs[j].alias != id
  {
    var found := Search.First(r.defs, IsAlias(id));
    assert found.Some? by {
      var w :| 0 <= w < |r.defs| && r.defs[w].alias == id;
      assert IsAlias(id)(r.defs[w]);
    }
    found.value
  }

  function Lookup(r: Registry, id: Id): Definition
    requires Has(r, id)
  {
    r.defs[IndexOf(r, id)]
  }

  /** The definitions with every definition of alias `id` taken out, in order. */
  function Remove(defs: seq<Definition>, id: Id): (rest: seq<Definition>)
    ensures forall d :: d in rest <==> d in defs && d.alias != id
    ensures |rest| <= |defs|
  {
    if defs == [] then []
    else (if defs[0].alias == id then [] else [defs[0]]) + Remove(defs[1..], id)
  }

  /**
   * Removal works piece by piece, so the definitions it keeps stay in
   * their registration order.
   */
  lemma {:induction false} RemoveConcat(a: seq<Definition>, b: seq<Definition>, id: Id)
    ensures Remove(a + b, id) == Remove(a, id) + Remove(b, id)
    decreases |a|
  {
    if a == [] {
      assert a + b == b;
    } else {
      assert (a + b)[0] == a[0] && (a + b)[1..] == a[1..] + b;
      RemoveConcat(a[1..], b, id);
      var head := if a[0].alias == id then [] else [a[0]];
      calc {
        Remove(a + b, id);
        head + Remove(a[1..] + b, id);
        head + (Remove(a[1..], id) + Remove(b, id));
        (head + Remove(a[1..], id)) + Remove(b, id);
      }
    }
  }

  /**
   * Registers a definition of `id` with no tags and nothing cached and
   * returns it. `shared` distinguishes `addShared` from `add`.
   */
  function Add(r: Registry, id: Id, concrete: Concrete, overwrite: bool, shared: bool): (res: (Registry, Definition))
    ensures res.1 == Definition(id, concrete, shared, {}, None)
    ensures res.0.built == r.built
    ensures |res.0.defs| > 0 && res.0.defs[|res.0.defs| - 1] == res.1
    ensures Has(res.0, id)
    ensures !overwrite ==> res.0.defs == r.defs + [res.1]
    ensures !overwrite && Has(r, id) ==> Lookup(res.0, id) == Lookup(r, id)
    ensures overwrite ==> Lookup(res.0, id) == res.1
    ensures overwrite ==> res.0.defs == Remove(r.defs, id) + [res.1]
    ensures overwrite ==> forall d :: d in res.0.defs <==> d == res.1 || (d in r.defs && d.alias != id)
    ensures Valid(r) ==> Valid(res.0)
  {
    var d := Definition(id, concrete, shared, {}, None);
    var kept := if overwrite then Remove(r.defs, id) else r.defs;
    var r' := Registry(kept + [d], r.built);
    assert r'.defs[|r'.defs| - 1].alias == id;
    assert !overwrite && Has(r, id) ==> IndexOf(r', id) == IndexOf(r, id) by {
      if !overwrite && Has(r, id) {
        var k := IndexOf(r, id);
        assert r'.defs[k].alias == id;
        assert forall j :: 0 <= j < k ==> r'.defs[j] == r.defs[j];
      }
    }
    assert overwrite ==> IndexOf(r', id) == |kept| by {
      if overwrite {
        forall j | 0 <= j < |kept| ensures kept[j].alias != id {
          assert kept[j] in kept;
        }
      }
    }
    assert Valid(r) ==> Valid(r') by {
      if Valid(r) {
        forall k | 0 <= k < |r'.defs| && r'.defs[k].resolved.Some?
          ensures r'.defs[k].resolved.value.concrete == r'.defs[k].concrete
          ensures r'.defs[k].resolved.value.serial < r'.built
        {
          assert r'.defs[k] in kept;
          var j :| 0 <= j < |r.defs| && r.defs[j] == r'.defs[k];
        }
      }
    }
    (r', d)
  }

  /**
   * An overwriting add leaves every other alias looking up the definition
   * it looked up before.
   */
  lemma OverwriteKeepsOtherLookups(r: Registry, id: Id, concrete: Concrete, shared: bool, other: Id)
    requires other != id && Has(r, other)
    ensures var r' := Add(r, id, concrete, true, shared).0;
      Has(r', other) && Lookup(r', other) == Lookup(r, other)
  {
    RemoveKeepsFirst(r, id, other, [Definition(id, concrete, shared, {}, None)]);
  }

  /** Removing another alias, then appending, keeps the definition an id looks up. */
  lemma RemoveKeepsFirst(r: Registry, id: Id, other: Id, tail: seq<Definition>)
    requires other != id && Has(r, other)
    ensures var r' := Registry(Remove(r.defs, id) + tail, r.built);
      Has(r', other) && Lookup(r', other) == Lookup(r, other)
  {
    var k := IndexOf(r, other);
    var before := Remove(r.defs[..k], id);
    var after := Remove(r.defs[k + 1..], id) + tail;
    assert Remove(r.defs, id) + tail == before + [r.defs[k]] + after by {
      RemoveAround(r.defs, id, k);
    }
    assert forall j :: 0 <= j < |before| ==> before[j].alias != other by {
      RemoveKeepsAbsent(r.defs[..k], id, other);
    }
    FirstAtSplice(before, r.defs[k], after, r.built, other);
  }

  /** Removal introduces no definition of an alias that was absent. */
  lemma RemoveKeepsAbsent(defs: seq<Definition>, id: Id, other: Id)
    requires forall j :: 0 <= j < |defs| ==> defs[j].alias != other
    ensures forall j :: 0 <= j < |Remove(defs, id)| ==> Remove(defs, id)[j].alias != other
  {
    var rest := Remove(defs, id);
    forall j | 0 <= j < |rest| ensures rest[j].alias != other {
      assert rest[j] in defs;
    }
  }

  /** Removal keeps a definition of another alias between what came before and after it. */
  lemma RemoveAround(defs: seq<Definition>, id: Id, k: nat)
    requires k < |defs| && defs[k].alias != id
    ensures Remove(defs, id) == Remove(defs[..k], id) + [defs[k]] + Remove(defs[k + 1..], id)
  {
    assert defs == defs[..k] + ([defs[k]] + defs[k + 1..]);
    RemoveConcat(defs[..k], [defs[k]] + defs[k + 1..], id);
    RemoveConcat([defs[k]], defs[k + 1..], id);
    assert Remove([defs[k]], id) == [defs[k]];
  }

  /** A definition preceded only by other aliases is the one looked up. */
  lemma FirstAtSplice(pre: seq<Definition>, d: Definition, post: seq<Definition>, built: nat, id: Id)
    requires d.alias == id
    requires forall j :: 0 <= j < |pre| ==> pre[j].alias != id
    ensures var r := Registry(pre + [d] + post, built);
      Has(r, id) && Lookup(r, id) == d
  {
    var r := Registry(pre + [d] + post, built);
    assert r.defs[|pre|] == d;
    var k := IndexOf(r, id);
    assert k >= |pre| ==> k == |pre|;
  }

  /** Definitions `a` and `b` differ at most in what they have cached. */
  ghost predicate SameShape(a: seq<Definition>, b: seq<Definition>)
  {
    |a| == |b| &&
    forall k :: 0 <= k < |a| ==> a[k].(resolved := None) == b[k].(resolved := None)
  }

  lemma SameShapeKeepsLookups(r: Registry, r': Registry, id: Id)
    requires SameShape(r.defs, r'.defs)
    ensures Has(r, id) <==> Has(r', id)
    ensures HasTag(r, id) <==> HasTag(r', id)
    ensures Has(r, id) ==> IndexOf(r', id) == IndexOf(r, id)
  {
  }

  /** A resolution of definition `d` returns its cached instance. */
  predicate Reuses(d: Definition, wantNew: bool)
  {
    !wantNew && d.shared && d.resolved.Some?
  }

  /**
   * Resolves the definition at position `k`: a shared definition with a
   * cached instance yields that instance unless a new one is asked for;
   * otherwise a new instance is built and becomes the cached one.
   */
  function ResolveAt(r: Registry, k: nat, wantNew: bool): (res: (Registry, Value))
    requires k < |r.defs|
    ensures SameShape(r.defs, res.0.defs)
    ensures res.0.defs[k].resolved == Some(res.1)
    ensures forall j :: 0 <= j < |r.defs| && j != k ==> res.0.defs[j] == r.defs[j]
    ensures Reuses(r.defs[k], wantNew) ==> res.0 == r
    ensures !Reuses(r.defs[k], wantNew) ==> res.1.serial == r.built && res.0.built == r.built + 1
    ensures Valid(r) ==> Valid(res.0) && res.1.concrete == r.defs[k].concrete
  {
    var d := r.defs[k];
    if Reuses(d, wantNew) then (r, d.resolved.value)
    else
      var v := Instance(d.concrete, r.built);
      (Registry(r.defs[k := d.(resolved := Some(v))], r.built + 1), v)
  }

  /** `resolve` (wantNew = false) and `resolveNew` (wantNew = true) of an id. */
  function Resolve(r: Registry, id: Id, wantNew: bool): (res: (Registry, Value))
    requires Has(r, id)
    ensures SameShape(r.defs, res.0.defs)
    ensures Has(res.0, id) && Lookup(res.0, id).resolved == Some(res.1)
    ensures Reuses(Lookup(r, id), wantNew) ==> res == (r, Lookup(r, id).resolved.value)
    ensures !Reuses(Lookup(r, id), wantNew) ==>
      res.1 == Instance(Lookup(r, id).concrete, r.built) && res.0.built == r.built + 1
    ensures Valid(r) ==> Valid(res.0)
  {
    ResolveAt(r, IndexOf(r, id), wantNew)
  }

  /**
   * A definition resolved without reuse builds a new instance on every
   * call: two successive resolutions number their instances consecutively.
   */
  lemma UnsharedResolveBuildsFresh(r: Registry, id: Id, wantNew: bool)
    requires Has(r, id)
    requires wantNew || !Lookup(r, id).shared
    ensures var (r1, first) := Resolve(r, id, wantNew);
      var (r2, second) := Resolve(r1, id, wantNew);
      first == Instance(Lookup(r, id).concrete, r.built) &&
      second == Instance(Lookup(r, id).concrete, r.built + 1) &&
      r2.built == r.built + 2
  {
  }

  /** The positions at or after `i` of the definitions carrying `tag`, in registration order. */
  function TaggedFrom(defs: seq<Definition>, tag: Id, i: nat): (ks: seq<nat>)
    requires i <= |defs|
    ensures forall n :: 0 <= n < |ks| ==> i <= ks[n] < |defs| && tag in defs[ks[n]].tags
    ensures forall j :: i <= j < |defs| && tag in defs[j].tags ==> j in ks
    ensures forall n, m :: 0 <= n < m < |ks| ==> ks[n] < ks[m]
    decreases |defs| - i
  {
    if i == |defs| then []
    else if tag in defs[i].tags then [i] + TaggedFrom(defs, tag, i + 1)
    else TaggedFrom(defs, tag, i + 1)
  }

  /** The tag group of `tag`: its members' positions in registration order. */
  function Tagged(r: Registry, tag: Id): (ks: seq<nat>)
    ensures forall n :: 0 <= n < |ks| ==> ks[n] < |r.defs| && tag in r.defs[ks[n]].tags
    ensures forall j :: 0 <= j < |r.defs| && tag in r.defs[j].tags ==> j in ks
    ensures forall n, m :: 0 <= n < m < |ks| ==> ks[n] < ks[m]
    ensures HasTag(r, tag) <==> |ks| > 0
  {
    var ks := TaggedFrom(r.defs, tag, 0);
    assert HasTag(r, tag) ==> |ks| > 0 by {
      if HasTag(r, tag) {
        var w :| 0 <= w < |r.defs| && tag in r.defs[w].tags;
        assert w in ks;
      }
    }
    assert |ks| > 0 ==> HasTag(r, tag) by {
      if |ks| > 0 {
        assert tag in r.defs[ks[0]].tags;
      }
    }
    ks
  }

  /**
   * Resolves the definitions at positions `ks` one after the other, each
   * with its own shared semantics, threading the registry through.
   */
  function ResolveEach(r: Registry, ks: seq<nat>, wantNew: bool): (res: (Registry, seq<Value>))
    requires forall n :: 0 <= n < |ks| ==> ks[n] < |r.defs|
    ensures |res.1| == |ks|
    ensures SameShape(r.defs, res.0.defs)
    ensures res.0.built >= r.built
    decreases |ks|
  {
    if ks == [] then (r, [])
    else
      var (r1, v) := ResolveAt(r, ks[0], wantNew);
      var (r2, vs) := ResolveEach(r1, ks[1..], wantNew);
      (r2, [v] + vs)
  }

  /**
   * Each member of a group resolution follows its own definition: a shared
   * member with a cached instance yields that instance (unless new ones are
   * asked for), every other member a newly built one; asking for new ones
   * builds one per member, numbered in order.
   */
  lemma {:induction false} ResolveEachHonoursSharing(r: Registry, ks: seq<nat>, wantNew: bool)
    requires forall n :: 0 <= n < |ks| ==> ks[n] < |r.defs|
    requires forall n, m :: 0 <= n < m < |ks| ==> ks[n] < ks[m]
    ensures var res := ResolveEach(r, ks, wantNew);
      forall n :: 0 <= n < |ks| && Reuses(r.defs[ks[n]], wantNew) ==>
        res.1[n] == r.defs[ks[n]].resolved.value
    ensures var res := ResolveEach(r, ks, wantNew);
      forall n :: 0 <= n < |ks| && !Reuses(r.defs[ks[n]], wantNew) ==>
        r.built <= res.1[n].serial < res.0.built
    ensures wantNew ==> forall n :: 0 <= n < |ks| ==> ResolveEach(r, ks, wantNew).1[n].serial == r.built + n
    decreases |ks|
  {
    if ks != [] {
      var (r1, v) := ResolveAt(r, ks[0], wantNew);
      ResolveEachHonoursSharing(r1, ks[1..], wantNew);
      var res := ResolveEach(r, ks, wantNew);
      forall n | 0 < n < |ks|
        ensures r1.defs[ks[n]] == r.defs[ks[n]]
        ensures res.1[n] == ResolveEach(r1, ks[1..], wantNew).1[n - 1]
      {
        assert ks[0] < ks[n];
      }
    }
  }

  /** Group resolution keeps the registry valid and builds each member from its own recipe. */
  lemma {:induction false} ResolveEachKeepsValid(r: Registry, ks: seq<nat>, wantNew: bool)
    requires forall n :: 0 <= n < |ks| ==> ks[n] < |r.defs|
    requires Valid(r)
    ensures Valid(ResolveEach(r, ks, wantNew).0)
    ensures forall n :: 0 <= n < |ks| ==> ResolveEach(r, ks, wantNew).1[n].concrete == r.defs[ks[n]].concrete
    decreases |ks|
  {
    if ks != [] {
      var (r1, v) := ResolveAt(r, ks[0], wantNew);
      ResolveEachKeepsValid(r1, ks[1..], wantNew);
      forall n | 0 < n < |ks| ensures r1.defs[ks[n]].concrete == r.defs[ks[n]].concrete {
        assert r1.defs[ks[n]].(resolved := None) == r.defs[ks[n]].(resolved := None);
      }
    }
  }

  /** `resolveTagged` (wantNew = false) and `resolveTaggedNew` (wantNew = true). */
  function ResolveTagged(r: Registry, tag: Id, wantNew: bool): (res: (Registry, seq<Value>))
    ensures |res.1| == |Tagged(r, tag)|
    ensures SameShape(r.defs, res.0.defs)
    ensures !HasTag(r, tag) ==> res == (r, [])
    ensures Valid(r) ==> Valid(res.0)
  {
    var ks := Tagged(r, tag);
    var res := ResolveEach(r, ks, wantNew);
    assert Valid(r) ==> Valid(res.0) by {
      if Valid(r) {
        ResolveEachKeepsValid(r, ks, wantNew);
      }
    }
    res
  }
}
