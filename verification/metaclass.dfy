/**
  The two operations of `PluginBaseMeta`: the class-creation hook `__new__`
  (here `Declare`, with `Register` for the part after the namespace guard) and
  the `PluginExtended` accessor (here `GetExtended`).
*/
module PluginMeta {
  import opened Wrappers
  import opened PluginRegistry

  /** The id of the `PluginBase` sentinel in the initial registry. */
  const PluginBaseId: TypeId := 0

  /**
    The registry right after the module is loaded: `PluginBase` exists, but
    its frontier attribute was deleted, so it is not a root and classes that
    derive from it alone become roots.
  */
  function Init(): (reg: Registry)
    ensures Wf(reg)
    ensures PluginBaseId in reg.types && !Rooted(reg, PluginBaseId)
    ensures reg.types[PluginBaseId].name == "PluginBase"
    ensures reg.roots == map[]
  {
    Registry(map[PluginBaseId := TypeInfo("PluginBase", {}, None)], map[], PluginBaseId + 1)
  }

  /** The root reached from the rooted bases of a declaration. */
  function RootOfBases(reg: Registry, bases: set<TypeId>): (r: TypeId)
    requires RootsWf(reg)
    requires HasRootedBase(reg, bases) && OneRoot(reg, bases)
    ensures r in reg.roots
    ensures forall b :: b in bases && Rooted(reg, b) ==> RootOf(reg, b) == r
  {
    var b :| b in bases && Rooted(reg, b);
    assert RootWf(reg, b);
    RootOf(reg, b)
  }

  /**
    The body of `__new__` after the guard: create the class with a fresh id
    and either make it a new root (no base has a frontier) or record it in its
    root's frontier in place of its bases, invalidating that root's cache.
  */
  function Register(reg: Registry, name: string, bases: set<TypeId>): (s: Step)
    requires IdsFresh(reg) && RootsWf(reg)
    requires bases <= reg.types.Keys
    requires OneRoot(reg, bases)
    // the class object takes the next fresh id and nothing that existed changes
    ensures s.ty == reg.next && s.ty !in reg.types && s.reg.next == s.ty + 1
    ensures s.reg.types.Keys == reg.types.Keys + {s.ty}
    ensures forall t :: t in reg.types ==> s.reg.types[t] == reg.types[t]
    ensures s.reg.types[s.ty].name == name && s.reg.types[s.ty].bases == bases
    ensures Rooted(s.reg, s.ty) && RootOf(s.reg, s.ty) in s.reg.roots
    // no base carries a frontier: the class becomes a root of its own
    ensures !HasRootedBase(reg, bases) ==>
      && RootOf(s.reg, s.ty) == s.ty
      && s.reg.roots.Keys == reg.roots.Keys + {s.ty}
      && s.reg.roots[s.ty] == RootState({s.ty}, false)
    // otherwise it joins the root of its bases
    ensures HasRootedBase(reg, bases) ==>
      && s.reg.roots.Keys == reg.roots.Keys
      && (forall b :: b in bases && Rooted(reg, b) ==> RootOf(s.reg, s.ty) == RootOf(reg, b))
    // frontier update: the bases leave, the new class enters, the rest stays
    ensures HasRootedBase(reg, bases) ==>
      var r := RootOf(s.reg, s.ty);
      && s.ty in s.reg.roots[r].frontier
      && s.reg.roots[r].frontier !! bases
      && reg.roots[r].frontier - bases <= s.reg.roots[r].frontier
      && s.reg.roots[r].frontier <= reg.roots[r].frontier + {s.ty}
    // the root's cache is invalidated, every other root is untouched
    ensures !s.reg.roots[RootOf(s.reg, s.ty)].cacheValid
    ensures forall q :: q in reg.roots && q != RootOf(s.reg, s.ty) ==>
      q in s.reg.roots && s.reg.roots[q] == reg.roots[q]
  {
    var n := reg.next;
    if !HasRootedBase(reg, bases) then
      Step(Registry(reg.types[n := TypeInfo(name, bases, Some(n))],
                    reg.roots[n := RootState({n}, false)],
                    n + 1), n)
    else
      var r := RootOfBases(reg, bases);
      Step(Registry(reg.types[n := TypeInfo(name, bases, Some(r))],
                    reg.roots[r := RootState((reg.roots[r].frontier - bases) + {n}, false)],
                    n + 1), n)
  }

  /**
    The frontier update as one equation: the root the new class joins now
    holds its old frontier without the class's bases, plus the class.
  */
  lemma RegisterFrontierRule(reg: Registry, name: string, bases: set<TypeId>)
    requires IdsFresh(reg) && RootsWf(reg)
    requires bases <= reg.types.Keys
    requires OneRoot(reg, bases) && HasRootedBase(reg, bases)
    ensures var s := Register(reg, name, bases);
      var r := RootOf(s.reg, s.ty);
      && r in reg.roots
      && s.reg.roots[r] == RootState((reg.roots[r].frontier - bases) + {s.ty}, false)
  {
  }

  /** Every registration keeps the registry well formed. */
  lemma RegisterPreservesWf(reg: Registry, name: string, bases: set<TypeId>)
    requires Wf(reg) && bases <= reg.types.Keys && OneRoot(reg, bases)
    ensures Wf(Register(reg, name, bases).reg)
  {
    var reg' := Register(reg, name, bases).reg;
    if !HasRootedBase(reg, bases) {
      assert Founded(reg, name, bases, reg');
      NewRootWf(reg, name, bases, reg');
    } else {
      var r := RootOfBases(reg, bases);
      assert Joined(reg, name, bases, r, reg');
      JoinWf(reg, name, bases, r, reg');
    }
  }

  /**
    `reg'` is `reg` with one more class, `name(bases)` at id `reg.next`,
    linked to root `link`, and with roots map `roots'`. Both branches of
    `Register` have this shape.
  */
  ghost predicate Adds(reg: Registry, name: string, bases: set<TypeId>, link: TypeId,
                       roots': map<TypeId, RootState>, reg': Registry)
  {
    reg' == Registry(reg.types[reg.next := TypeInfo(name, bases, Some(link))], roots', reg.next + 1)
  }

  /** Adding a class whose bases are registered keeps ids fresh and bases earlier. */
  lemma AddsBasesEarlier(reg: Registry, name: string, bases: set<TypeId>, link: TypeId,
                         roots': map<TypeId, RootState>, reg': Registry)
    requires IdsFresh(reg) && BasesEarlier(reg) && bases <= reg.types.Keys
    requires Adds(reg, name, bases, link, roots', reg')
    ensures IdsFresh(reg') && BasesEarlier(reg')
  {
    var n := reg.next;
    forall t, b | t in reg'.types && b in reg'.types[t].bases ensures b in reg'.types && b < t {
      if t != n {
        assert reg'.types[t] == reg.types[t];
        assert b in reg.types && b < t;
      } else {
        assert reg'.types[t].bases == bases;
        assert b in reg.types && b < reg.next;
      }
    }
    assert BasesEarlier(reg');
  }

  /** The registry after a class becomes a root of its own, as `Register` builds it. */
  ghost predicate Founded(reg: Registry, name: string, bases: set<TypeId>, reg': Registry)
  {
    Adds(reg, name, bases, reg.next, reg.roots[reg.next := RootState({reg.next}, false)], reg')
  }

  lemma NewRootWf(reg: Registry, name: string, bases: set<TypeId>, reg': Registry)
    requires Wf(reg) && bases <= reg.types.Keys && !HasRootedBase(reg, bases)
    requires Founded(reg, name, bases, reg')
    ensures Wf(reg')
  {
    AddsBasesEarlier(reg, name, bases, reg.next, reg.roots[reg.next := RootState({reg.next}, false)], reg');
    NewRootRootsWf(reg, name, bases, reg');
    NewRootBasesAgree(reg, name, bases, reg');
    NewRootFrontiersWf(reg, name, bases, reg');
  }

  lemma NewRootRootsWf(reg: Registry, name: string, bases: set<TypeId>, reg': Registry)
    requires IdsFresh(reg) && RootsWf(reg)
    requires Founded(reg, name, bases, reg')
    ensures RootsWf(reg')
  {
    var n := reg.next;
    forall t | Rooted(reg', t) ensures RootWf(reg', t) {
      if t != n { assert RootWf(reg, t); }
    }
  }

  lemma NewRootBasesAgree(reg: Registry, name: string, bases: set<TypeId>, reg': Registry)
    requires IdsFresh(reg) && BasesEarlier(reg) && BasesAgree(reg) && bases <= reg.types.Keys
    requires !HasRootedBase(reg, bases)
    requires Founded(reg, name, bases, reg')
    ensures BasesAgree(reg')
  {
    var n := reg.next;
    forall t | t in reg'.types ensures BaseRootsAgree(reg', t) {
      if t != n {
        assert BaseRootsAgree(reg, t);
        forall b | b in reg'.types[t].bases ensures b in reg.types && b != n { }
      } else {
        forall b | b in bases ensures b in reg.types && b != n && !Rooted(reg, b) { }
      }
    }
  }

  lemma NewRootFrontiersWf(reg: Registry, name: string, bases: set<TypeId>, reg': Registry)
    requires IdsFresh(reg) && FrontiersWf(reg)
    requires Founded(reg, name, bases, reg')
    ensures FrontiersWf(reg')
  {
  }

  /** The registry after a class joins root `r`, as `Register` builds it. */
  ghost predicate Joined(reg: Registry, name: string, bases: set<TypeId>, r: TypeId, reg': Registry)
    requires r in reg.roots
  {
    Adds(reg, name, bases, r, reg.roots[r := RootState((reg.roots[r].frontier - bases) + {reg.next}, false)], reg')
  }

  lemma JoinWf(reg: Registry, name: string, bases: set<TypeId>, r: TypeId, reg': Registry)
    requires Wf(reg) && bases <= reg.types.Keys
    requires forall b :: b in bases && Rooted(reg, b) ==> RootOf(reg, b) == r
    requires exists b :: b in bases && Rooted(reg, b)
    requires r in reg.roots && Joined(reg, name, bases, r, reg')
    ensures Wf(reg')
  {
    var b0 :| b0 in bases && Rooted(reg, b0);
    assert RootWf(reg, b0);
    AddsBasesEarlier(reg, name, bases, r,
      reg.roots[r := RootState((reg.roots[r].frontier - bases) + {reg.next}, false)], reg');
    JoinRootsWf(reg, name, bases, r, reg');
    JoinBasesAgree(reg, name, bases, r, reg');
    JoinFrontiersWf(reg, name, bases, r, reg');
  }

  lemma JoinRootsWf(reg: Registry, name: string, bases: set<TypeId>, r: TypeId, reg': Registry)
    requires IdsFresh(reg) && RootsWf(reg) && r in reg.roots && r < reg.next
    requires Joined(reg, name, bases, r, reg')
    ensures RootsWf(reg')
  {
    var n := reg.next;
    forall t | Rooted(reg', t) ensures RootWf(reg', t) {
      if t != n { assert RootWf(reg, t); }
    }
  }

  lemma JoinBasesAgree(reg: Registry, name: string, bases: set<TypeId>, r: TypeId, reg': Registry)
    requires IdsFresh(reg) && BasesEarlier(reg) && BasesAgree(reg) && bases <= reg.types.Keys
    requires forall b :: b in bases && Rooted(reg, b) ==> RootOf(reg, b) == r
    requires r in reg.roots && Joined(reg, name, bases, r, reg')
    ensures BasesAgree(reg')
  {
    var n := reg.next;
    forall t | t in reg'.types ensures BaseRootsAgree(reg', t) {
      if t != n {
        assert BaseRootsAgree(reg, t);
        forall b | b in reg'.types[t].bases ensures b in reg.types && b != n { }
      } else {
        forall b | b in bases ensures b in reg.types && b != n { }
      }
    }
  }

  lemma JoinFrontiersWf(reg: Registry, name: string, bases: set<TypeId>, r: TypeId, reg': Registry)
    requires IdsFresh(reg) && FrontiersWf(reg)
    requires r in reg.roots && Joined(reg, name, bases, r, reg')
    ensures FrontiersWf(reg')
  {
  }

  /**
    `PluginBaseMeta.__new__`: a class that inherits frontier bookkeeping (from
    a rooted base, or by defining it in its own namespace) may not define the
    root-only entries in its namespace; such a declaration raises and leaves
    the registry as it was.
  */
  function Declare(reg: Registry, name: string, bases: set<TypeId>, namespace: set<string>)
    : (r: Result<Step, Error>)
    requires IdsFresh(reg) && RootsWf(reg)
    requires bases <= reg.types.Keys
    requires OneRoot(reg, bases)
    ensures r.Failure? <==>
      ExtensionsAttr in namespace || (HasRootedBase(reg, bases) && RootAttr in namespace)
    ensures r.Failure? ==> r.error == ConfigurationError
    ensures r.Success? ==> r.value == Register(reg, name, bases)
  {
    var inherits := HasRootedBase(reg, bases) || ExtensionsAttr in namespace;
    if inherits && (ExtensionsAttr in namespace || RootAttr in namespace) then
      Failure(ConfigurationError)
    else
      Success(Register(reg, name, bases))
  }

  /** The single member of a one-element set. */
  function Only(s: set<TypeId>): (x: TypeId)
    requires |s| == 1
    ensures s == {x}
  {
    var x :| x in s;
    assert |s - {x}| == 0;
    assert s == {x};
    x
  }

  /**
    `PluginBaseMeta.PluginExtended`: with a valid cache, the single frontier
    member; otherwise a freshly declared composite whose bases are the whole
    frontier, after which the cache is valid. A type without a frontier
    (`PluginBase`) raises.
  */
  function GetExtended(reg: Registry, t: TypeId): (r: Result<Step, Error>)
    requires IdsFresh(reg) && RootsWf(reg) && FrontiersWf(reg)
    requires t in reg.types
    ensures r.Failure? <==> !Rooted(reg, t)
    ensures r.Failure? ==> r.error == MissingExtensions
    ensures r.Success? ==>
      var root := RootOf(reg, t);
      var st := reg.roots[root];
      // afterwards the cache is valid and holds exactly the returned type
      && root in r.value.reg.roots
      && r.value.reg.roots[root] == RootState({r.value.ty}, true)
      // a valid cache answers without any change
      && (st.cacheValid ==> r.value.reg == reg)
      // otherwise a fresh composite of the whole frontier is declared under the root
      && (!st.cacheValid ==>
            && r.value.ty == reg.next && r.value.reg.next == reg.next + 1
            && r.value.ty !in reg.types
            && r.value.reg.types.Keys == reg.types.Keys + {r.value.ty}
            && (forall u :: u in reg.types ==> r.value.reg.types[u] == reg.types[u])
            && r.value.reg.types[r.value.ty] == TypeInfo(ExtendedName(reg, root), st.frontier, Some(root))
            && r.value.reg.roots.Keys == reg.roots.Keys
            && (forall q :: q in reg.roots && q != root ==> r.value.reg.roots[q] == reg.roots[q]))
  {
    if !Rooted(reg, t) then
      Failure(MissingExtensions)
    else
      var root := RootOf(reg, t);
      assert RootWf(reg, t);
      var st := reg.roots[root];
      if st.cacheValid then
        Success(Step(reg, Only(st.frontier)))
      else
        Success(Compose(reg, root))
  }

  /**
    The cache-miss branch of `PluginExtended`: declare `<Root>PluginExtended`
    with the frontier as its bases, then mark the cache valid.
  */
  function Compose(reg: Registry, root: TypeId): (s: Step)
    requires IdsFresh(reg) && RootsWf(reg) && FrontiersWf(reg)
    requires root in reg.roots
    ensures s.ty == reg.next && s.reg.next == reg.next + 1
    ensures s.ty !in reg.types
    ensures s.reg.types.Keys == reg.types.Keys + {s.ty}
    ensures forall u :: u in reg.types ==> s.reg.types[u] == reg.types[u]
    ensures s.reg.types[s.ty] == TypeInfo(ExtendedName(reg, root), reg.roots[root].frontier, Some(root))
    ensures s.reg.roots.Keys == reg.roots.Keys
    ensures s.reg.roots[root] == RootState({s.ty}, true)
    ensures forall q :: q in reg.roots && q != root ==> s.reg.roots[q] == reg.roots[q]
  {
    var frontier := reg.roots[root].frontier;
    FrontierUnderRoot(reg, root);
    var d := Register(reg, ExtendedName(reg, root), frontier);
    Step(d.reg.(roots := d.reg.roots[root := RootState({d.ty}, true)]), d.ty)
  }

  /** The frontier of a root consists of existing classes of that root, at least one. */
  lemma FrontierUnderRoot(reg: Registry, root: TypeId)
    requires RootsWf(reg) && FrontiersWf(reg) && root in reg.roots
    ensures reg.roots[root].frontier <= reg.types.Keys
    ensures OneRoot(reg, reg.roots[root].frontier)
    ensures HasRootedBase(reg, reg.roots[root].frontier)
    ensures forall f :: f in reg.roots[root].frontier ==> Rooted(reg, f) && RootOf(reg, f) == root
  {
  }

  /** Building the composite keeps the registry well formed. */
  lemma ComposePreservesWf(reg: Registry, root: TypeId)
    requires Wf(reg) && root in reg.roots
    ensures Wf(Compose(reg, root).reg)
  {
    var frontier := reg.roots[root].frontier;
    FrontierUnderRoot(reg, root);
    var d := Register(reg, ExtendedName(reg, root), frontier);
    RegisterPreservesWf(reg, ExtendedName(reg, root), frontier);
    assert RootOf(d.reg, d.ty) == root;
    assert d.reg.roots[root].frontier == {d.ty};
    assert root in reg.types;
    SealCacheWf(d.reg, root, d.ty);
  }

  /** Marking a cache valid whose frontier is a lone composite keeps the registry well formed. */
  lemma SealCacheWf(reg: Registry, root: TypeId, c: TypeId)
    requires Wf(reg) && root in reg.roots
    requires reg.roots[root].frontier == {c}
    requires c in reg.types && reg.types[c].name == ExtendedName(reg, root)
    ensures Wf(reg.(roots := reg.roots[root := RootState({c}, true)]))
  {
    SealCacheRootsWf(reg, root, c);
    SealCacheFrontiersWf(reg, root, c);
  }

  lemma SealCacheRootsWf(reg: Registry, root: TypeId, c: TypeId)
    requires RootsWf(reg) && root in reg.roots
    ensures RootsWf(reg.(roots := reg.roots[root := RootState({c}, true)]))
  {
    var reg' := reg.(roots := reg.roots[root := RootState({c}, true)]);
    forall u | Rooted(reg', u) ensures RootWf(reg', u) { assert RootWf(reg, u); }
  }

  lemma SealCacheFrontiersWf(reg: Registry, root: TypeId, c: TypeId)
    requires FrontiersWf(reg) && root in reg.roots
    requires reg.roots[root].frontier == {c}
    requires c in reg.types && reg.types[c].name == ExtendedName(reg, root)
    ensures FrontiersWf(reg.(roots := reg.roots[root := RootState({c}, true)]))
  {
  }

  /** `PluginExtended` keeps the registry well formed. */
  lemma GetExtendedPreservesWf(reg: Registry, t: TypeId)
    requires Wf(reg) && t in reg.types
    ensures GetExtended(reg, t).Success? ==> Wf(GetExtended(reg, t).value.reg)
  {
    if Rooted(reg, t) {
      var root := RootOf(reg, t);
      assert RootWf(reg, t);
      if !reg.roots[root].cacheValid {
        ComposePreservesWf(reg, root);
      }
    }
  }
}
