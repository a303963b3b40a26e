/**
 * The container's lookup chain as a function of the collaborators' state:
 * direct definition, then tag group, then provider claim (registering the
 * provider and looking again), then the delegates in order, else NotFound.
 * Every value it produces passes through the inflectors.
 */
module Resolution {
  import opened Types
  import Definitions
  import Providers
  import Inflectors
  import Delegates

  /** What `resolve`, `has` and `extend` read and change. */
  datatype State = State(
    definitions: Definitions.Registry,
    providers: seq<Providers.Provider>,
    inflectors: seq<Inflectors.Inflector>,
    delegates: seq<Delegates.Delegate>)

  /** The id is a direct definition or a tag. */
  predicate Defined(s: State, id: Id)
  {
    Definitions.Has(s.definitions, id) || Definitions.HasTag(s.definitions, id)
  }

  /** `has(id)`: the four sources, in the order `resolve` tries them. */
  predicate Has(s: State, id: Id)
    ensures Has(s, id) <==>
      Defined(s, id) ||
      Providers.Claimant(s.providers, id).Some? ||
      Delegates.FirstHolder(s.delegates, id).Some?
  {
    Definitions.Has(s.definitions, id) ||
    Definitions.HasTag(s.definitions, id) ||
    Providers.Provides(s.providers, id) ||
    Delegates.AnyHas(s.delegates, id)
  }

  /** First branch: the direct definition, resolved and inflected. */
  function ResolveDirect(s: State, id: Id, wantNew: bool): (State, Result<Resolved, Error>)
    requires Definitions.Has(s.definitions, id)
  {
    var (r, v) := Definitions.Resolve(s.definitions, id, wantNew);
    (s.(definitions := r), Ok(One(Inflectors.Inflect(s.inflectors, v))))
  }

  /** Second branch: the tag group, each member resolved and inflected. */
  function ResolveGroup(s: State, id: Id, wantNew: bool): (State, Result<Resolved, Error>)
  {
    var (r, vs) := Definitions.ResolveTagged(s.definitions, id, wantNew);
    (s.(definitions := r), Ok(Many(Inflectors.InflectEach(s.inflectors, vs))))
  }

  /** Third branch's side effect: the claiming provider's registration. */
  function RegisterClaimant(s: State, id: Id): State
  {
    var (ps, r) := Providers.Register(s.providers, s.definitions, id);
    s.(providers := ps, definitions := r)
  }

  /**
   * `resolve(id, new)`. In the provider branch the look-again only happens
   * once the id is defined, so it lands in the first or second branch.
   */
  function Resolve(s: State, id: Id, wantNew: bool): (res: (State, Result<Resolved, Error>))
    ensures res.0.inflectors == s.inflectors && res.0.delegates == s.delegates
    ensures Defined(s, id) ==> res.0.providers == s.providers
    ensures !Has(s, id) ==> res == (s, Err(NotFound(id)))
    ensures res.1.Err? ==> res.1.error.id == id
    decreases if Defined(s, id) then 0 else 1
  {
    if Definitions.Has(s.definitions, id) then ResolveDirect(s, id, wantNew)
    else if Definitions.HasTag(s.definitions, id) then ResolveGroup(s, id, wantNew)
    else if Providers.Provides(s.providers, id) then
      var s' := RegisterClaimant(s, id);
      if !Defined(s', id) then (s', Err(ContainerError(id)))
      else Resolve(s', id, wantNew)
    else
      match Delegates.FirstHolder(s.delegates, id)
      case Some(k) => (s, Ok(One(Inflectors.Inflect(s.inflectors, s.delegates[k].entries[id]))))
      case None => (s, Err(NotFound(id)))
  }

  /**
   * `extend(id)`: register a claiming provider first, then hand out the
   * direct definition; a tag alone is not enough.
   */
  function Extend(s: State, id: Id): (res: (State, Result<Definitions.Definition, Error>))
    ensures res.0 == if Providers.Provides(s.providers, id) then RegisterClaimant(s, id) else s
    ensures res.0.delegates == s.delegates && res.0.inflectors == s.inflectors
    ensures res.1.Ok? <==> Definitions.Has(res.0.definitions, id)
    ensures res.1.Ok? ==> res.1.value == Definitions.Lookup(res.0.definitions, id)
    ensures res.1.Ok? ==> res.1.value.alias == id && res.1.value in res.0.definitions.defs
    ensures res.1.Err? ==> res.1.error == NotFound(id)
    ensures Definitions.Has(s.definitions, id) ==> res.1 == Ok(Definitions.Lookup(s.definitions, id))
  {
    var s' := if Providers.Provides(s.providers, id) then RegisterClaimant(s, id) else s;
    assert Definitions.Has(s.definitions, id) ==> Definitions.IndexOf(s'.definitions, id) == Definitions.IndexOf(s.definitions, id) by {
      if Definitions.Has(s.definitions, id) {
        var k := Definitions.IndexOf(s.definitions, id);
        assert s'.definitions.defs[k] == s.definitions.defs[k];
      }
    }
    if Definitions.Has(s'.definitions, id) then (s', Ok(Definitions.Lookup(s'.definitions, id)))
    else (s', Err(NotFound(id)))
  }

  // ---------------------------------------------------------------------
  // Properties of the lookup chain
  // ---------------------------------------------------------------------

  /** Resolution fails with NotFound exactly when `has` is false, and names the id. */
  lemma ResolveNotFoundIffAbsent(s: State, id: Id, wantNew: bool)
    ensures var res := Resolve(s, id, wantNew).1;
      (res.Err? && res.error.NotFound?) <==> !Has(s, id)
    ensures var res := Resolve(s, id, wantNew).1;
      res.Err? ==> res.error.id == id
  {
  }

  /**
   * A direct definition wins: providers are not registered, delegates not
   * consulted, and the definition's value is returned inflected.
   */
  lemma DefinitionWins(s: State, id: Id, wantNew: bool)
    requires Definitions.Has(s.definitions, id)
    ensures var (s', res) := Resolve(s, id, wantNew);
      var (r, v) := Definitions.Resolve(s.definitions, id, wantNew);
      s' == s.(definitions := r) &&
      res == Ok(One(Inflectors.Inflect(s.inflectors, v)))
  {
  }

  /**
   * A tag group yields one value per tagged definition, in registration
   * order, each the inflected value of the matching member; nothing but the
   * definitions' caches changes.
   */
  lemma TagGroupInOrder(s: State, id: Id, wantNew: bool)
    requires !Definitions.Has(s.definitions, id)
    requires Definitions.HasTag(s.definitions, id)
    ensures var (s', res) := Resolve(s, id, wantNew);
      var members := Definitions.Tagged(s.definitions, id);
      var raw := Definitions.ResolveTagged(s.definitions, id, wantNew).1;
      s'.providers == s.providers && s'.delegates == s.delegates &&
      res.Ok? && res.value.Many? &&
      |res.value.values| == |members| &&
      forall n :: 0 <= n < |members| ==> res.value.values[n] == Inflectors.Inflect(s.inflectors, raw[n])
  {
  }

  /**
   * A provider that claims the id but whose registration defines neither a
   * definition nor a tag of that id makes resolution fail with
   * ContainerError, not NotFound.
   */
  lemma ProviderThatLiedFails(s: State, id: Id, wantNew: bool)
    requires !Defined(s, id)
    requires Providers.Provides(s.providers, id)
    requires !Defined(RegisterClaimant(s, id), id)
    ensures Resolve(s, id, wantNew) == (RegisterClaimant(s, id), Err(ContainerError(id)))
  {
  }

  /**
   * The provider branch looks again at most once: after registration the
   * result is that of the first or second branch on the registered state.
   */
  lemma ProviderRecursesOnce(s: State, id: Id, wantNew: bool)
    requires !Defined(s, id)
    requires Providers.Provides(s.providers, id)
    requires Defined(RegisterClaimant(s, id), id)
    ensures var s' := RegisterClaimant(s, id);
      Resolve(s, id, wantNew) ==
        if Definitions.Has(s'.definitions, id) then ResolveDirect(s', id, wantNew)
        else ResolveGroup(s', id, wantNew)
  {
  }

  /**
   * Resolving an id through its provider registers that provider for good:
   * afterwards, `register(b)` for any id with the same first claimant
   * changes nothing, so a following `get(b)` does not run the action again.
   */
  lemma ProviderRegistersOnce(s: State, a: Id, b: Id, wantNew: bool)
    requires Definitions.Valid(s.definitions)
    requires !Defined(s, a) && Providers.Provides(s.providers, a)
    requires Providers.Claimant(s.providers, a) == Providers.Claimant(s.providers, b)
    ensures var s1 := Resolve(s, a, wantNew).0;
      Providers.Register(s1.providers, s1.definitions, b) == (s1.providers, s1.definitions)
  {
    var s' := RegisterClaimant(s, a);
    var s1 := Resolve(s, a, wantNew).0;
    if Defined(s', a) {
      ResolveKeepsInvariants(s', a, wantNew);
    }
    Providers.RegisterRunsOnce(s.providers, s.definitions, a, b, s1.providers, s1.definitions);
  }

  /**
   * With no definition, tag or provider for the id, the first delegate that
   * has it supplies the value (inflected) and nothing changes.
   */
  lemma FirstDelegateWins(s: State, id: Id, wantNew: bool, k: nat)
    requires !Defined(s, id) && !Providers.Provides(s.providers, id)
    requires k < |s.delegates| && id in s.delegates[k].entries
    requires forall j :: 0 <= j < k ==> id !in s.delegates[j].entries
    ensures Resolve(s, id, wantNew) == (s, Ok(One(Inflectors.Inflect(s.inflectors, s.delegates[k].entries[id]))))
  {
  }

  /**
   * Resolution keeps the registry valid, never changes the inflectors, the
   * delegates or what each provider claims, and never unregisters a provider.
   */
  lemma ResolveKeepsInvariants(s: State, id: Id, wantNew: bool)
    requires Definitions.Valid(s.definitions)
    ensures var s' := Resolve(s, id, wantNew).0;
      Definitions.Valid(s'.definitions) &&
      s'.inflectors == s.inflectors && s'.delegates == s.delegates &&
      |s'.providers| == |s.providers| &&
      forall i :: 0 <= i < |s.providers| ==>
        s'.providers[i].claimed == s.providers[i].claimed &&
        s'.providers[i].definitions == s.providers[i].definitions &&
        (s.providers[i].registered ==> s'.providers[i].registered)
    decreases if Defined(s, id) then 0 else 1
  {
    if Definitions.Has(s.definitions, id) {
    } else if Definitions.HasTag(s.definitions, id) {
      Definitions.ResolveEachKeepsValid(s.definitions, Definitions.Tagged(s.definitions, id), wantNew);
    } else if Providers.Provides(s.providers, id) {
      var s1 := RegisterClaimant(s, id);
      if Defined(s1, id) {
        ResolveKeepsInvariants(s1, id, wantNew);
      }
    }
  }

  /**
   * Shared definitions: whatever the first call was (`get` or `getNew`), a
   * following `get` returns the same value and changes nothing.
   */
  lemma SharedGetRepeats(s: State, id: Id, wantNew: bool)
    requires Definitions.Has(s.definitions, id)
    requires Definitions.Lookup(s.definitions, id).shared
    ensures var (s1, first) := Resolve(s, id, wantNew);
      Resolve(s1, id, false) == (s1, first)
  {
  }

  /**
   * Non-shared definitions (and any definition under `getNew`): each call
   * builds a new instance, numbered by the build count, so two successive
   * calls produce two distinct instances before inflection.
   */
  lemma UnsharedGetBuildsFresh(s: State, id: Id, wantNew: bool)
    requires Definitions.Has(s.definitions, id)
    requires wantNew || !Definitions.Lookup(s.definitions, id).shared
    ensures var (s1, first) := Resolve(s, id, wantNew);
      var (s2, second) := Resolve(s1, id, wantNew);
      var c := Definitions.Lookup(s.definitions, id).concrete;
      var n := s.definitions.built;
      first == Ok(One(Inflectors.Inflect(s.inflectors, Instance(c, n)))) &&
      second == Ok(One(Inflectors.Inflect(s.inflectors, Instance(c, n + 1))))
  {
    Definitions.UnsharedResolveBuildsFresh(s.definitions, id, wantNew);
    var r1 := Definitions.Resolve(s.definitions, id, wantNew).0;
    Definitions.SameShapeKeepsLookups(s.definitions, r1, id);
  }

  /** A fresh build is distinct from every instance the registry has cached. */
  lemma FreshBuildIsNewInstance(s: State, id: Id)
    requires Definitions.Valid(s.definitions)
    requires Definitions.Has(s.definitions, id)
    ensures var v := Definitions.Resolve(s.definitions, id, true).1;
      forall k :: 0 <= k < |s.definitions.defs| && s.definitions.defs[k].resolved.Some? ==>
        s.definitions.defs[k].resolved.value != v
  {
  }
}
