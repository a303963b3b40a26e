/**
 * The container: the public registration and retrieval API over the
 * definition, provider and inflector registries and the delegate chain.
 * Each registry is a field holding its state; the container's own settings
 * are the two default flags.
 */
module Containers {
  import opened Types
  import Definitions
  import Providers
  import Inflectors
  import Delegates
  import Resolution

  class Container {
    /** When set, `Add` registers shared definitions, exactly as `AddShared`. */
    var defaultToShared: bool
    /** ORed into the overwrite flag of every `Add` and `AddShared`. */
    var defaultToOverwrite: bool
    var definitions: Definitions.Registry
    var providers: seq<Providers.Provider>
    var inflectors: seq<Inflectors.Inflector>
    /** Consulted last, in the order `Delegate` appended them. */
    var delegates: seq<Delegates.Delegate>

    ghost predicate Valid()
      reads this
    {
      Definitions.Valid(definitions)
    }

    /** The state the lookup chain reads and changes. */
    ghost function State(): Resolution.State
      reads this
    {
      Resolution.State(definitions, providers, inflectors, delegates)
    }

    constructor (
      definitions: Definitions.Registry,
      providers: seq<Providers.Provider>,
      inflectors: seq<Inflectors.Inflector>,
      defaultToShared: bool)
      requires Definitions.Valid(definitions)
      ensures Valid()
      ensures this.definitions == definitions && this.providers == providers
      ensures this.inflectors == inflectors && this.delegates == []
      ensures this.defaultToShared == defaultToShared && !this.defaultToOverwrite
    {
      this.definitions := definitions;
      this.providers := providers;
      this.inflectors := inflectors;
      this.delegates := [];
      this.defaultToShared := defaultToShared;
      this.defaultToOverwrite := false;
    }

    /**
     * `add(id, concrete, overwrite)`: a shared definition when
     * `defaultToShared` is set, a non-shared one otherwise; the recipe
     * defaults to the id and the overwrite flag includes the default.
     */
    method Add(id: Id, concrete: Option<Concrete>, overwrite: bool) returns (definition: Definitions.Definition)
      requires Valid()
      modifies this`definitions
      ensures Valid()
      ensures (definitions, definition) ==
        Definitions.Add(old(definitions), id, ConcreteOrAlias(concrete, id),
                        defaultToOverwrite || overwrite, defaultToShared)
    {
      var toOverwrite := defaultToOverwrite || overwrite;
      var recipe := ConcreteOrAlias(concrete, id);
      if defaultToShared {
        definition := AddShared(id, Some(recipe), toOverwrite);
        return;
      }
      var added := Definitions.Add(definitions, id, recipe, toOverwrite, false);
      definitions, definition := added.0, added.1;
    }

    /** `addShared(id, concrete, overwrite)`: registers a shared definition. */
    method AddShared(id: Id, concrete: Option<Concrete>, overwrite: bool) returns (definition: Definitions.Definition)
      requires Valid()
      modifies this`definitions
      ensures Valid()
      ensures (definitions, definition) ==
        Definitions.Add(old(definitions), id, ConcreteOrAlias(concrete, id),
                        defaultToOverwrite || overwrite, true)
    {
      var toOverwrite := defaultToOverwrite || overwrite;
      var recipe := ConcreteOrAlias(concrete, id);
      var added := Definitions.Add(definitions, id, recipe, toOverwrite, true);
      definitions, definition := added.0, added.1;
    }

    /** `defaultToShared(shared)`: sets that flag alone and returns the container. */
    method DefaultToShared(shared: bool) returns (self: Container)
      modifies this`defaultToShared
      ensures defaultToShared == shared && self == this
    {
      defaultToShared := shared;
      self := this;
    }

    /** `defaultToOverwrite(overwrite)`: sets that flag alone and returns the container. */
    method DefaultToOverwrite(overwrite: bool) returns (self: Container)
      modifies this`defaultToOverwrite
      ensures defaultToOverwrite == overwrite && self == this
    {
      defaultToOverwrite := overwrite;
      self := this;
    }

    /**
     * `extend(id)`: registers a provider claiming the id, then returns the
     * id's direct definition, or NotFound when there is none.
     */
    method Extend(id: Id) returns (result: Result<Definitions.Definition, Error>)
      requires Valid()
      modifies this`definitions, this`providers
      ensures Valid()
      ensures (State(), result) == Resolution.Extend(old(State()), id)
    {
      if Providers.Provides(providers, id) {
        var registered := Providers.Register(providers, definitions, id);
        providers, definitions := registered.0, registered.1;
      }
      if Definitions.Has(definitions, id) {
        return Ok(Definitions.Lookup(definitions, id));
      }
      result := Err(NotFound(id));
    }

    /** `addServiceProvider(provider)`: appended, not registered. */
    method AddServiceProvider(provider: Providers.Provider) returns (self: Container)
      modifies this`providers
      ensures providers == old(providers) + [provider] && self == this
    {
      providers := providers + [provider];
      self := this;
    }

    /** `get(id)`. */
    method Get(id: Id) returns (result: Result<Resolved, Error>)
      requires Valid()
      modifies this`definitions, this`providers
      ensures Valid()
      ensures (State(), result) == Resolution.Resolve(old(State()), id, false)
    {
      result := Resolve(id, false);
    }

    /** `getNew(id)`. */
    method GetNew(id: Id) returns (result: Result<Resolved, Error>)
      requires Valid()
      modifies this`definitions, this`providers
      ensures Valid()
      ensures (State(), result) == Resolution.Resolve(old(State()), id, true)
    {
      result := Resolve(id, true);
    }

    /**
     * `has(id)`: a direct definition, a tag, a provider claim or a delegate
     * that has the id; nothing is registered or resolved.
     */
    method Has(id: Id) returns (found: bool)
      ensures found <==> Resolution.Has(State(), id)
    {
      if Definitions.Has(definitions, id) {
        return true;
      }
      if Definitions.HasTag(definitions, id) {
        return true;
      }
      if Providers.Provides(providers, id) {
        return true;
      }
      var i := 0;
      while i < |delegates|
        invariant 0 <= i <= |delegates|
        invariant forall j :: 0 <= j < i ==> id !in delegates[j].entries
      {
        if id in delegates[i].entries {
          return true;
        }
        i := i + 1;
      }
      found := false;
    }

    /**
     * `inflector(type, callback)`: registers an inflector, which from now
     * on runs after every earlier one.
     */
    method Inflector(matches: Value -> bool, callback: Value -> Value) returns (inflector: Inflectors.Inflector)
      modifies this`inflectors
      ensures inflector == Inflectors.Inflector(matches, callback)
      ensures inflectors == old(inflectors) + [inflector]
      ensures forall v ::
                Inflectors.Inflect(inflectors, v) ==
                Inflectors.Apply(inflector, Inflectors.Inflect(old(inflectors), v))
    {
      inflector := Inflectors.Inflector(matches, callback);
      forall v ensures Inflectors.Inflect(inflectors + [inflector], v) ==
        Inflectors.Apply(inflector, Inflectors.Inflect(inflectors, v)) {
        Inflectors.InflectAppend(inflectors, inflector, v);
      }
      inflectors := inflectors + [inflector];
    }

    /**
     * The tag branch's `array_walk`: each element of the group is replaced,
     * in place and in order, by its inflected value.
     */
    method InflectWalk(arrayOf: seq<Value>) returns (walked: seq<Value>)
      ensures |walked| == |arrayOf|
      ensures forall n :: 0 <= n < |arrayOf| ==> walked[n] == Inflectors.Inflect(inflectors, arrayOf[n])
    {
      walked := arrayOf;
      var i := 0;
      while i < |walked|
        invariant 0 <= i <= |walked| == |arrayOf|
        invariant forall n :: 0 <= n < i ==> walked[n] == Inflectors.Inflect(inflectors, arrayOf[n])
        invariant forall n :: i <= n < |walked| ==> walked[n] == arrayOf[n]
      {
        walked := walked[i := Inflectors.Inflect(inflectors, walked[i])];
        i := i + 1;
      }
    }

    /** `delegate(container)`: appended after every earlier delegate. */
    method Delegate(delegate: Delegates.Delegate) returns (self: Container)
      modifies this`delegates
      ensures delegates == old(delegates) + [delegate] && self == this
    {
      delegates := delegates + [delegate];
      self := this;
    }

    /**
     * `resolve(id, new)`: direct definition, tag group, provider claim,
     * delegates, in that order. The provider branch calls itself once the
     * provider has defined the id, so that call stops at the first or second
     * branch.
     */
    method Resolve(id: Id, wantNew: bool) returns (result: Result<Resolved, Error>)
      requires Valid()
      modifies this`definitions, this`providers
      ensures Valid()
      ensures (State(), result) == Resolution.Resolve(old(State()), id, wantNew)
      decreases if Resolution.Defined(State(), id) then 0 else 1
    {
      ghost var before := State();
      if Definitions.Has(definitions, id) {
        assert Resolution.Resolve(before, id, wantNew) == Resolution.ResolveDirect(before, id, wantNew);
        var resolved := Definitions.Resolve(definitions, id, wantNew);
        definitions := resolved.0;
        return Ok(One(Inflectors.Inflect(inflectors, resolved.1)));
      }

      if Definitions.HasTag(definitions, id) {
        assert Resolution.Resolve(before, id, wantNew) == Resolution.ResolveGroup(before, id, wantNew);
        var resolved := Definitions.ResolveTagged(definitions, id, wantNew);
        definitions := resolved.0;
        var arrayOf := InflectWalk(resolved.1);
        assert arrayOf == Inflectors.InflectEach(inflectors, resolved.1);
        return Ok(Many(arrayOf));
      }

      if Providers.Provides(providers, id) {
        var registered := Providers.Register(providers, definitions, id);
        providers, definitions := registered.0, registered.1;
        assert State() == Resolution.RegisterClaimant(before, id);
        if !Definitions.Has(definitions, id) && !Definitions.HasTag(definitions, id) {
          return Err(ContainerError(id));
        }
        result := Resolve(id, wantNew);
        return;
      }

      result := AskDelegates(id, wantNew);
    }

    /**
     * The last branch of `resolve`: the first delegate that has the id
     * supplies the value, inflected; with none, NotFound.
     */
    method AskDelegates(id: Id, wantNew: bool) returns (result: Result<Resolved, Error>)
      requires !Resolution.Defined(State(), id) && !Providers.Provides(providers, id)
      ensures (State(), result) == Resolution.Resolve(State(), id, wantNew)
    {
      var i := 0;
      while i < |delegates|
        invariant 0 <= i <= |delegates|
        invariant forall j :: 0 <= j < i ==> id !in delegates[j].entries
      {
        if id in delegates[i].entries {
          Resolution.FirstDelegateWins(State(), id, wantNew, i);
          return Ok(One(Inflectors.Inflect(inflectors, delegates[i].entries[id])));
        }
        i := i + 1;
      }
      result := Err(NotFound(id));
    }
  }
}
