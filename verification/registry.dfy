/**
  The state of the plugin registry kept by `PluginBaseMeta`.

  Every class the metaclass creates is an abstract type id. For each type the
  registry remembers its name, its direct bases and the root whose bookkeeping
  it reaches (`__pluginroot__`). For each root it keeps the frontier of lowest
  plugins (`__pluginextensions__`) and the cache flag
  (`__pluginiscachevalid__`). A counter supplies fresh ids, so every class
  object created later is distinct from every existing one.
*/
module PluginRegistry {
  import opened Wrappers

  type TypeId = nat

  /** Namespace entries that only a root may carry. */
  const ExtensionsAttr: string := "__pluginextensions__"
  const RootAttr: string := "__pluginroot__"

  /** Suffix appended to the root's name to name its composite. */
  const ExtendedSuffix: string := "PluginExtended"

  datatype TypeInfo = TypeInfo(name: string, bases: set<TypeId>, root: Option<TypeId>)

  datatype RootState = RootState(frontier: set<TypeId>, cacheValid: bool)

  datatype Registry = Registry(
    types: map<TypeId, TypeInfo>,
    roots: map<TypeId, RootState>,
    next: TypeId)

  /**
    The two ways the core raises, under the model's own names: the namespace
    guard of `__new__` is a bare `assert` and raises `AssertionError`;
    `PluginExtended` on a class without a frontier raises `AttributeError`.
  */
  datatype Error =
    | ConfigurationError   // AssertionError from the namespace guard
    | MissingExtensions    // AttributeError: no `__pluginextensions__` to read

  /** A transition's new registry together with the type it produced. */
  datatype Step = Step(reg: Registry, ty: TypeId)

  /** `hasattr(t, '__pluginextensions__')`: `t` reaches some root's bookkeeping. */
  predicate Rooted(reg: Registry, t: TypeId)
  {
    t in reg.types && reg.types[t].root.Some?
  }

  function RootOf(reg: Registry, t: TypeId): TypeId
    requires Rooted(reg, t)
  {
    reg.types[t].root.value
  }

  predicate HasRootedBase(reg: Registry, bases: set<TypeId>)
  {
    exists b :: b in bases && Rooted(reg, b)
  }

  /** All rooted bases of a declaration agree on their root. */
  predicate OneRoot(reg: Registry, bases: set<TypeId>)
  {
    forall b1, b2 :: b1 in bases && b2 in bases && Rooted(reg, b1) && Rooted(reg, b2) ==>
      RootOf(reg, b1) == RootOf(reg, b2)
  }

  /** The name the composite of root `r` is given. */
  function ExtendedName(reg: Registry, r: TypeId): string
    requires r in reg.types
  {
    reg.types[r].name + ExtendedSuffix
  }

  /** Structural well-formedness of every reachable registry. */
  ghost predicate Wf(reg: Registry)
  {
    IdsFresh(reg) && BasesEarlier(reg) && RootsWf(reg) && BasesAgree(reg) && FrontiersWf(reg)
  }

  /** Every id in use is below the fresh-id counter. */
  ghost predicate IdsFresh(reg: Registry)
  {
    forall t :: t in reg.types ==> t < reg.next
  }

  /** Bases are classes that existed before the class that names them. */
  ghost predicate BasesEarlier(reg: Registry)
  {
    forall t, b :: t in reg.types && b in reg.types[t].bases ==> b in reg.types && b < t
  }

  /** Every root reference leads to a registered root, and roots are their own roots. */
  ghost predicate RootsWf(reg: Registry)
  {
    && (forall t :: Rooted(reg, t) ==> RootWf(reg, t))
    && (forall r :: r in reg.roots ==> r in reg.types && reg.types[r].root == Some(r))
  }

  /** A class with a rooted base shares that base's root. */
  ghost predicate BasesAgree(reg: Registry)
  {
    forall t :: t in reg.types ==> BaseRootsAgree(reg, t)
  }

  ghost predicate BaseRootsAgree(reg: Registry, t: TypeId)
    requires t in reg.types
  {
    forall b :: b in reg.types[t].bases && Rooted(reg, b) ==> reg.types[b].root == reg.types[t].root
  }

  ghost predicate FrontiersWf(reg: Registry)
  {
    forall r :: r in reg.roots ==> r in reg.types && FrontierWf(reg, r)
  }

  /** A rooted type's root is an earlier type that is a registered root. */
  ghost predicate RootWf(reg: Registry, t: TypeId)
    requires Rooted(reg, t)
  {
    var r := RootOf(reg, t);
    r <= t && r in reg.roots && r in reg.types && reg.types[r].root == Some(r)
  }

  /**
    The frontier of a root is non-empty and lies under that root; a valid
    cache means the frontier is a single class named `<Root>PluginExtended`.
    That this class is the composite the most recent read from the root
    returned is a property of runs from the initial registry, shown in
    `Cache.ValidCacheHoldsLastRead`.
  */
  ghost predicate FrontierWf(reg: Registry, r: TypeId)
    requires r in reg.roots && r in reg.types
  {
    var st := reg.roots[r];
    && st.frontier != {}
    && (forall f :: f in st.frontier ==> f in reg.types && reg.types[f].root == Some(r))
    && (st.cacheValid ==>
          |st.frontier| == 1 &&
          forall c :: c in st.frontier ==> reg.types[c].name == ExtendedName(reg, r))
  }
}
