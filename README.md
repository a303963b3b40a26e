# IoC container resolution, modelled in Dafny

This project models the orchestrator of a small inversion-of-control
container (`League\Container\Container`). Callers register identifiers with
recipes for producing values, and later retrieve the values by identifier.
The container holds four collaborators: the definition registry, the
service-provider registry, the inflector registry and the delegate chain.
It also holds two settings, `defaultToShared` and `defaultToOverwrite`.

The container is the class `Containers.Container`. Its fields are the two
flags and the state of each collaborator, and each PHP method is a Dafny
method with a `modifies` frame naming only the fields it changes. Retrieval
(`get`, `getNew`) runs the recursive method `Resolve`. It tries the direct
definition, then the tag group, then a provider claim (register, then look
again), then the delegates in insertion order, and otherwise fails with
NotFound. `has` and the delegate scan are loops over the delegate sequence.
`Get`, `GetNew`, `Resolve` and `Extend` are proved against the
specification functions `Resolution.Resolve` and `Resolution.Extend`, and
`Has` against `Resolution.Has`. The lemmas in module `Resolution` state the
promised properties of those functions. `Add` and `AddShared` are proved
against `Definitions.Add`, whose contract and lemmas state what a
registration does to the definitions. `DefaultToShared`,
`DefaultToOverwrite`, `AddServiceProvider`, `Inflector` and `Delegate` state
their new state directly in their postconditions.

The collaborators are modelled on values:

- `Definitions.Registry`: the definitions in registration order, plus a
  build counter. A definition carries its alias, recipe, shared flag, tags
  and an optional cached instance. Building a value makes
  `Instance(recipe, serial)` with a new serial, so a fresh build is a
  distinct instance.
- `Providers.Provider`: the ids it claims, its `registered` flag and the
  definitions its registration adds.
- `Inflectors.Inflector`: an opaque type test and an opaque callback. They
  are chained in registration order.
- `Delegates.Delegate`: a partial map. `has` is membership and `get` is
  lookup.

Choices for the collaborators. Their source is not part of this model:

- Repeated alias: `add` appends the definition. Without overwrite, the
  earlier definition keeps precedence for lookups by id. With overwrite,
  every earlier definition of that alias is removed first.
- `register(id)` runs the first provider claiming `id`, and only if that
  provider is not yet registered.
- `resolveNew` always replaces the cached instance. Only a shared
  definition ever reads the cache, so this matches "update the cache when
  shared".

## Model

| member | source | states |
|---|---|---|
| Containers.Container.constructor | src/Container.php:47-64 | the given registries and default-to-shared flag are installed; overwrite defaults to false and there are no delegates |
| Containers.Container.Add | src/Container.php:66-76 | effective overwrite is `defaultToOverwrite OR overwrite`, the recipe defaults to the id, and the definition is shared exactly when `defaultToShared` is set (the same effect as `AddShared`); only the definition registry changes |
| Containers.Container.AddShared | src/Container.php:78-83 | registers a shared definition with effective overwrite `defaultToOverwrite OR overwrite` and recipe defaulting to the id; only the definition registry changes |
| Containers.Container.DefaultToShared | src/Container.php:85-89 | sets only `defaultToShared` and returns the container itself |
| Containers.Container.DefaultToOverwrite | src/Container.php:91-95 | sets only `defaultToOverwrite` and returns the container itself |
| Containers.Container.Extend | src/Container.php:97-111 | registers a claiming provider first, then returns the direct definition or NotFound; changes only definitions and providers |
| Containers.Container.AddServiceProvider | src/Container.php:113-117 | appends the provider without registering it, returns the container |
| Containers.Container.Get | src/Container.php:119-122 | new state and result are those of the lookup chain with new = false |
| Containers.Container.GetNew | src/Container.php:124-127 | new state and result are those of the lookup chain with new = true |
| Containers.Container.Has | src/Container.php:129-150 | the answer is exactly `Resolution.Has` of the current state: a direct definition, a tag, a provider claim, or some delegate that has the id; changes nothing |
| Containers.Container.Inflector | src/Container.php:152-155 | appends the inflector; from then on inflection is the old chain followed by the new inflector |
| Containers.Container.Delegate | src/Container.php:157-166 | appends the delegate at the end, so delegates stay in insertion order; returns the container |
| Containers.Container.AskDelegates | src/Container.php:197-204 | with no definition, tag or provider for the id, the result is that of the lookup chain: the first delegate holding the id supplies the inflected value, otherwise NotFound; nothing changes |
| Containers.Container.Resolve | src/Container.php:168-205 | new state and result equal the lookup-chain function; registry invariant kept; the recursive call happens only once the id is defined, so the recursion is at most one level deep |
| Containers.Container.InflectWalk | src/Container.php:180-182 | the walked group has the same length, and each element is the inflected value of the element at the same position |
| Resolution.Has | src/Container.php:129-150 | `has(id)` holds exactly when the id is a definition or a tag, or a claimant provider exists, or a first delegate holding the id exists (the same searches resolution uses) |
| Resolution.Resolve | src/Container.php:168-205 | resolution never changes the inflectors or the delegates; a defined id leaves the providers alone; an id nothing supplies fails with NotFound and changes nothing; every error names the requested id |
| Resolution.Extend | src/Container.php:97-111 | the new state is the claiming provider's registration when a provider claims the id, else unchanged; succeeds iff a direct definition exists afterwards, and then returns the definition a lookup of the id finds, with the requested alias; the error is always NotFound for that id; an existing definition is returned unchanged |
| Resolution.ResolveNotFoundIffAbsent | src/Container.php:129-150 | resolution fails with NotFound exactly when `has(id)` is false, and every error names the requested id |
| Resolution.DefinitionWins | src/Container.php:170-173 | with a direct definition, providers are not registered and delegates are not consulted; the result is the definition's value, inflected |
| Resolution.TagGroupInOrder | src/Container.php:175-184 | a tag yields a sequence as long as the tag group, in registration order, each element the inflected resolution of the corresponding member; providers and delegates untouched |
| Resolution.ProviderThatLiedFails | src/Container.php:187-192 | a provider that claims the id but defines neither definition nor tag makes resolution fail with ContainerError (not NotFound), and its registration persists |
| Resolution.ProviderRecursesOnce | src/Container.php:187-195 | after registration the recursive call equals the first or second branch on the registered state |
| Resolution.ProviderRegistersOnce | src/Container.php:187-194 | after `get(a)` goes through a provider, registering any id with the same first claimant changes nothing, so a following `get(b)` does not run the provider's action again |
| Resolution.FirstDelegateWins | src/Container.php:197-202 | with no definition, tag or provider, the first delegate holding the id supplies the inflected value, later delegates are not queried and nothing changes |
| Resolution.ResolveKeepsInvariants | src/Container.php:168-205 | resolution keeps the registry invariant, never changes inflectors, delegates or what providers claim, and never unregisters a provider |
| Resolution.SharedGetRepeats | src/Container.php:171 | for a shared definition, after `get` or `getNew` a following `get` returns the same value and changes nothing |
| Resolution.UnsharedGetBuildsFresh | src/Container.php:171 | a non-shared definition (or any under `getNew`) builds a new instance per call: successive calls yield consecutively numbered instances |
| Resolution.FreshBuildIsNewInstance | src/Container.php:171 | `resolveNew` yields an instance different from every instance the registry has cached |
| Definitions.Has | src/Container.php:131 | `has(id)` (also asked at lines 103, 170 and 190) holds exactly when some definition is registered under alias `id` |
| Definitions.HasTag | src/Container.php:135 | `hasTag(tag)` (also asked at lines 175 and 190) holds exactly when some definition carries the tag |
| Definitions.Add | src/Container.php:75 | the new definition (no tags, nothing cached) is last; the id is then defined; without overwrite the definitions are the old ones followed by the new one and an earlier definition keeps precedence; with overwrite they are the old ones minus every definition of the alias, in order, followed by the new one, which is then the id's definition |
| Definitions.RemoveConcat | src/Container.php:75 | removing an alias's definitions works piece by piece, so the remaining definitions keep their registration order |
| Definitions.OverwriteKeepsOtherLookups | src/Container.php:75 | an overwriting add leaves every other alias looking up exactly the definition it looked up before |
| Definitions.IndexOf | src/Container.php:104 | the definition looked up for an id is the first registered under that alias |
| Definitions.Resolve | src/Container.php:171 | resolving an id changes only caches; afterwards the id's definition caches the returned value; a reused shared definition yields its cache and nothing changes, any other yields a new instance of its recipe with the next serial; the registry invariant is kept |
| Definitions.ResolveAt | src/Container.php:171 | a shared, cached definition yields its cache without change unless a new one is asked for; otherwise a build with the next serial that becomes the cache; only that definition's cache changes |
| Definitions.UnsharedResolveBuildsFresh | src/Container.php:171 | two successive resolutions of a non-reused definition build consecutively numbered instances |
| Definitions.Tagged | src/Container.php:175-178 | the tag group is exactly the positions of definitions carrying the tag, strictly increasing; it is non-empty iff `hasTag` |
| Definitions.ResolveEach | src/Container.php:176-178 | one value per group member, only caches change, and the build counter never goes back |
| Definitions.ResolveTagged | src/Container.php:176-178 | a tag yields as many values as its tag group has members, changes only caches and keeps the registry invariant; a tag nobody carries yields nothing and changes nothing |
| Definitions.ResolveEachHonoursSharing | src/Container.php:176-178 | each group member follows its own shared semantics: cached shared members yield their cache, others a newly built instance; `new` builds one per member, numbered in order |
| Definitions.ResolveEachKeepsValid | src/Container.php:176-178 | group resolution keeps the registry invariant and builds each member from its own recipe |
| Providers.Provides | src/Container.php:139 | `provides(id)` (also asked at lines 99 and 187) holds exactly when some provider in the registry claims the id |
| Providers.Claimant | src/Container.php:187 | a claimant exists iff some provider claims the id; it is the first such provider |
| Providers.Register | src/Container.php:188 | only the first claimant's flag may change, to registered; an unregistered claimant's definitions are appended with nothing cached; with no claimant, or a claimant already registered, nothing changes at all; existing definitions are kept as a prefix |
| Providers.RegisterRunsOnce | src/Container.php:188 | once `register(a)` has run, `register(b)` for an id with the same first claimant changes nothing in any later state that keeps the claims and registered flags, whatever the definitions have become; a provider's action runs at most once |
| Inflectors.InflectAppend | src/Container.php:152-155 | a newly added inflector runs after all earlier ones |
| Inflectors.Inflect | src/Container.php:172 | `inflect` (also at lines 181 and 200): a value that no inflector's type test accepts comes out unchanged |
| Delegates.FirstHolder | src/Container.php:197-202 | the chosen delegate is the first one holding the id; one exists iff some delegate holds it |

## Left out

- The construction of a value from a definition is not part of this model. That covers reflection, autowiring, constructor arguments and method calls. A build is `Instance(recipe, serial)`, so a literal recipe that PHP returns as the same value is still a distinct instance here.
- Inflector type matching (`instanceof`) and the callbacks are opaque total functions on values. Mutation of an object in place by a callback is modelled as a returned value.
- The `ContainerAwareInterface` back-references (src/Container.php:53-63 and 161-163) are not modelled. They wire objects together and have no effect on resolution.
- Exception messages are not modelled. Only the kind of error and the id it names are kept.
- `add`, `addShared` and `extend` return the definition as a value. Configuring it afterwards through the handle (adding tags, changing sharing) is not modelled. Tagged definitions enter through providers.
- A provider's registration is modelled as appending its declared definitions and setting its flag. Arbitrary provider code, re-entrant resolution from inside `register()`, and the container's default flags applied to provider-added definitions are not modelled.
- A delegate whose `get` fails after `has` returned true is not modelled. Delegates are partial maps.
- Resolution.UnsharedGetBuildsFresh: states distinctness of the built instances before inflection only, because opaque inflectors may map distinct instances to equal values.
