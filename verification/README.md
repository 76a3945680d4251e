# pluginlib registry model

This project models the class registry behind `pluginlib.PluginBase` in Dafny.
Every class declared under a plugin *root* runs the metaclass hook
`PluginBaseMeta.__new__`. The hook keeps the root's *frontier*, the set of
"lowest plugins", which are the classes nothing has subclassed yet. It also
resets the root's cache flag. The `PluginExtended` property turns the frontier
into one composite class that inherits from every frontier member. It then
caches that class by collapsing the frontier to it and setting the flag.

The model is an immutable `Registry` value:

- `types` maps each class id to its name, its direct bases (a set) and its
  root. A class that carries no frontier bookkeeping has root `None`;
  `PluginBase` is such a class.
- `roots` maps each root to its frontier and its cache flag.
- `next` is the fresh-id supply. Every declaration, including the composite
  that `PluginExtended` declares, takes the next id. Identity of Python class
  objects therefore becomes equality of ids.

Modules:

- `Wrappers` (`wrappers.dfy`): `Option` and `Result`.
- `PluginRegistry` (`registry.dfy`): the state, the error kinds, and the
  well-formedness invariant `Wf`. One part of `Wf` states that a valid cache
  flag implies a one-element frontier holding a class named
  `<Root>PluginExtended`. `Cache.ValidCacheHoldsLastRead` shows, for every
  run from the initial registry, that this class is the composite the most
  recent read from that root returned. `Cache.LookupSurvivesRun` shows that
  this composite stays the answer until something is declared under its
  root.
- `PluginMeta` (`metaclass.dfy`): the operations. `Init` is the registry
  holding `PluginBase`. `Register` is the body of `__new__`. `Declare` is
  `__new__` with its namespace guard. `GetExtended` is the `PluginExtended`
  property. Each has a lemma showing it preserves `Wf`.
- `Lineage` (`lineage.dfy`): the "lowest plugins" invariant. It is stated
  against an independent reference: the frontier of root `r` equals
  `Leaves(reg, r)`, the classes under `r` that no class lists as a base. The
  module derives from it that no frontier member is an ancestor of any class,
  and that every class under a root is an ancestor-or-self of a frontier
  member.
- `Cache` (`cache.dfy`): the identity guarantees of `PluginExtended`,
  including what holds across a whole run of declarations and reads.
- `Scenario` (`scenario.dfy`): the demonstration tree from the bottom of
  `pluginlib.py`, replayed step by step. It declares each plugin through
  `Register`. `Declare` is exactly `Register` for the empty class bodies of
  the demonstration, by its contract.

Declarations whose rooted bases sit under two different roots are excluded by
the precondition `OneRoot`. For such a class, Python's attribute lookup
would pick one root by method resolution order.

Points of pluginlib.py the model keeps as they are:

- The guard rejects any namespace that defines `__pluginextensions__`, even
  for a class that would otherwise become a new root. `hasattr` already sees
  the namespace entry, so such a class takes the subclass branch, and the
  `assert` fails there (pluginlib.py:44, 49-50).
- The composite is not stored anywhere apart from the frontier. With a valid
  flag the frontier's single member is the answer (pluginlib.py:59-62).
- Both ways the core raises get model names:
  - `ConfigurationError` stands for the `AssertionError` of the guard at
    pluginlib.py:49-50.
  - `MissingExtensions` stands for the `AttributeError` raised when
    `PluginExtended` is read from `PluginBase`. The `del` at pluginlib.py:74
    removed the attribute that line 65 reads.

## Model

| member | source | states |
|---|---|---|
| PluginMeta.Init | pluginlib.py:72-74 | The initial registry holds `PluginBase` under that name. `PluginBase` has no frontier bookkeeping (the deleted `__pluginextensions__`), there are no roots, and the invariant holds. |
| PluginMeta.Register | pluginlib.py:42-55 | A declared class gets a fresh id, and no existing class changes. Without a rooted base it becomes a root with frontier `{itself}` and an invalid cache. Otherwise it joins its bases' root: it is in the new frontier, no base is, every old member that is not a base stays, and nothing else enters. That root's flag becomes false; every other root is unchanged. |
| PluginMeta.RegisterFrontierRule | pluginlib.py:51-54 | The frontier update as one equation. After a declaration under a root, that root's state is (old frontier minus the direct bases) plus the new class, with the flag false. |
| PluginMeta.Declare | pluginlib.py:43-50 | A declaration fails with `ConfigurationError` (the guard's `AssertionError`) exactly when its namespace defines `__pluginextensions__`, or when it has a rooted base and its namespace defines `__pluginroot__`. A failure carries no new registry. Otherwise the result is the `Register` transition. |
| PluginMeta.GetExtended | pluginlib.py:57-67 | Fails with `MissingExtensions` (Python's `AttributeError`) exactly for a class without a root (`PluginBase`). Otherwise the root ends with frontier `{result}` and a valid flag. With a valid cache nothing changes. With an invalid one the result is a fresh class named `<Root>PluginExtended` whose bases are exactly the old frontier, and every other root is untouched. |
| PluginMeta.Compose | pluginlib.py:63-67 | Building the composite declares one fresh class over the whole frontier under the root. It then seals the root's cache on that class and leaves other classes and roots unchanged. |
| PluginMeta.Only | pluginlib.py:62 | On a one-element frontier, returns the element `x` with frontier `== {x}`. |
| PluginMeta.FrontierUnderRoot | pluginlib.py:45-53 | In a well-formed registry a root's frontier is nonempty, and its members are registered classes of that root. Composite creation therefore joins the same root. |
| PluginMeta.RegisterPreservesWf | pluginlib.py:42-55 | Every declaration keeps the invariant: ids are fresh, bases are earlier classes, root links resolve to roots, a class shares the root of its rooted bases, and frontiers hold classes of their root, with the valid-flag/singleton-composite link. |
| PluginMeta.ComposePreservesWf | pluginlib.py:63-67 | Building and caching the composite keeps the invariant, including the valid flag pointing at a singleton frontier holding `<Root>PluginExtended`. |
| PluginMeta.GetExtendedPreservesWf | pluginlib.py:57-67 | Every successful `PluginExtended` read keeps the invariant. |
| Lineage.InitIsLowest | pluginlib.py:72-74 | The initial registry satisfies the lowest-plugins invariant. |
| Lineage.LeavesAfterRegister | pluginlib.py:51-53 | After a declaration the new class is a leaf, and an old class is a leaf exactly when it was one and is not among the new class's bases. |
| Lineage.RegisterKeepsLowest | pluginlib.py:45-53 | If every frontier equals the reference set of leaves under its root before a declaration, this still holds afterwards, for every root. |
| Lineage.ComposeKeepsLowest | pluginlib.py:63-67 | Building and caching the composite keeps every frontier equal to its leaves. |
| Lineage.DeclarePreservesValid | pluginlib.py:42-55 | A successful declaration keeps both the invariant and the lowest-plugins property. |
| Lineage.GetExtendedPreservesValid | pluginlib.py:57-67 | A successful `PluginExtended` read keeps both the invariant and the lowest-plugins property. |
| Lineage.FrontierHasNoDescendants | pluginlib.py:45 | In a lowest registry no frontier member is a proper ancestor of any class, so no frontier member is an ancestor of another. |
| Lineage.ReachesLeaf | pluginlib.py:45 | Every class under a root is itself a leaf of that root or has a descendant that is. |
| Lineage.FrontierCoversRoot | pluginlib.py:45 | In a valid registry every class under a root is a frontier member or an ancestor of one. |
| Cache.RepeatedLookupIsIdentical | pluginlib.py:59-62 | Two `PluginExtended` reads from any two classes of the same root, with no declaration between them, return the identical class, and the second read leaves the registry unchanged. |
| Cache.CacheHitReturnsFrontier | pluginlib.py:59-62 | With a valid flag, the read returns the single frontier member, which is the class named `<Root>PluginExtended`. |
| Cache.DeclarationForcesNewComposite | pluginlib.py:54 | After any successful declaration under a root, the next read from any class of that root returns a class different from every class that existed before the declaration, including every earlier composite. |
| Cache.OtherRootKeepsComposite | pluginlib.py:54 | A declaration under one root leaves another root's cached composite as the answer of its next read. |
| Cache.EventKeepsCache | pluginlib.py:54-66 | One declaration under another root, or one read from any class, keeps the invariant and leaves a valid cache holding `c` as it was. |
| Cache.CacheSurvivesRun | pluginlib.py:59-62 | Over any run of reads and of declarations under other roots, a cache holding `c` stays valid on `c`. At the end every class of the root reads `c` and the read changes nothing. |
| Cache.LookupSurvivesRun | pluginlib.py:59-67 | The composite one read builds is the answer of every later read from any class of its root, through any run that declares nothing under that root. |
| Cache.ValidCacheOneEventBack | pluginlib.py:54-66 | One event before a valid cache: the event declared nothing under that root, since a declaration there clears the flag. Either it was a read from a class of the root that left the cache holding what it returned, or the root's state was already the same. |
| Cache.ValidCacheHoldsLastRead | pluginlib.py:54-66 | At any point of a run from the initial registry, a valid cache holds exactly the composite that the most recent read from a class of its root returned, and nothing was declared under that root since that read. |
| Scenario.DemoRoots | pluginlib.py:98-109 | `Root` and `OtherRoot` become roots with frontiers `{Root}` and then `{OtherSub}` for `OtherRoot`. `PluginBase` stays rootless. |
| Scenario.DemoBranches | pluginlib.py:111-119 | After `A, B, C(Root)` the frontier of `Root` is `{A, B, C}`, and other roots are unchanged. |
| Scenario.DemoMerges | pluginlib.py:121-131 | After `D(A, B)`, `E(B)`, `F(D)` the frontier of `Root` is `{C, E, F}` and its cache is invalid. The three frontier ids carry the names `C`, `E` and `F`. |
| Scenario.DemoLookups | pluginlib.py:133-135 | `F.PluginExtended` and `E.PluginExtended` are the same class, and its bases are `{C, E, F}`. |
| Scenario.DemoRedeclare | pluginlib.py:137-140 | After declaring `ETC(F)`, `E.PluginExtended` is a new class. |
| Scenario.DemoTree | pluginlib.py:98-140 | The whole demonstration: frontier `{C, E, F}`, checked both as ids and as the set of class names, `OtherRoot` still at `{OtherSub}`, composite bases `{C, E, F}`, `XT is XT2`, and `XT3 is not XT2`. |

## Left out

- Bases that are not classes of the registry are not modelled, such as `object` (pluginlib.py:73) or a plain mixin. A declaration is given its registered bases only. The hook ignores the others: they have no `__pluginextensions__`, so they do not decide the branch at line 44. They are never frontier members, so `difference_update` at line 52 removes nothing for them.
- Python's class creation (`type.__new__`, the `type(...)` call, the property descriptor) is replaced by state transitions over ids; attributes other than the bookkeeping ones are not modelled.
- Method resolution order is not modelled. This covers the C3 linearization of the composite's bases and the `TypeError` Python raises for an inconsistent order, because the interpreter does that, not the module.
- The order of the composite's bases is not modelled. It follows set iteration order, so bases are a set.
- A class whose rooted bases belong to two different roots is not modelled (`OneRoot` precondition). Which root's frontier Python's attribute lookup would pick depends on method resolution order.
- Editing a root's `__pluginextensions__` by hand (pluginlib.py:27-28) is not modelled. It bypasses the hook and never touches the cache flag.
- The Python 2 `__metaclass__` entry and the `del` that creates `PluginBase` are not modelled, beyond the fact that `PluginBase` has no frontier and so is no root.
- The guard is modelled as always active. Running under `python -O` strips the `assert`, and that case is not modelled.
- A namespace entry `__pluginiscachevalid__` is not modelled: the hook overwrites it on roots and never reads it from subclasses.
- Printing in the demonstration block is not modelled.
- Thread safety is not modelled; the module has none.
- The demonstration declares its plugins through `Register` rather than `Declare`. With an empty class body the two coincide by `Declare`'s contract, so the demonstration exercises no guard failure.
