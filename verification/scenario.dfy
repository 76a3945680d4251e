/**
  The demonstration tree at the bottom of the module, replayed on the model:

      Root            OtherRoot
      /  |  \              |
     A   B   C         OtherSub
     |  /|
     | / |
     D   E
     |
     F
*/
module Scenario {
  import opened Wrappers
  import opened PluginRegistry
  import opened PluginMeta

  /** Declare a direct subclass of `PluginBase`, which becomes a root. */
  method AddRoot(reg: Registry, name: string) returns (reg': Registry, t: TypeId)
    requires Wf(reg) && PluginBaseId in reg.types && !Rooted(reg, PluginBaseId)
    ensures Wf(reg') && PluginBaseId in reg'.types && !Rooted(reg', PluginBaseId)
    ensures t == reg.next && reg'.next == t + 1 && Rooted(reg', t) && RootOf(reg', t) == t
    ensures forall u :: Rooted(reg, u) ==> Rooted(reg', u) && RootOf(reg', u) == RootOf(reg, u)
    ensures reg'.roots.Keys == reg.roots.Keys + {t} && reg'.roots[t] == RootState({t}, false)
    ensures forall q :: q in reg.roots ==> reg'.roots[q] == reg.roots[q]
  {
    RegisterPreservesWf(reg, name, {PluginBaseId});
    var s := Register(reg, name, {PluginBaseId});
    reg', t := s.reg, s.ty;
  }

  /** Declare a plugin whose bases all lie under `root`. */
  method AddPlugin(reg: Registry, root: TypeId, name: string, bases: set<TypeId>)
    returns (reg': Registry, t: TypeId)
    requires Wf(reg) && root in reg.roots
    requires PluginBaseId in reg.types && !Rooted(reg, PluginBaseId)
    requires bases != {} && forall b :: b in bases ==> Rooted(reg, b) && RootOf(reg, b) == root
    ensures Wf(reg') && PluginBaseId in reg'.types && !Rooted(reg', PluginBaseId)
    ensures t == reg.next && reg'.next == t + 1 && Rooted(reg', t) && RootOf(reg', t) == root
    ensures reg'.types[t].name == name
    ensures forall u :: Rooted(reg, u) ==>
      Rooted(reg', u) && RootOf(reg', u) == RootOf(reg, u) && reg'.types[u].name == reg.types[u].name
    ensures reg'.roots.Keys == reg.roots.Keys
    ensures reg'.roots[root] == RootState((reg.roots[root].frontier - bases) + {t}, false)
    ensures forall q :: q in reg.roots && q != root ==> reg'.roots[q] == reg.roots[q]
  {
    RegisterPreservesWf(reg, name, bases);
    RegisterFrontierRule(reg, name, bases);
    var s := Register(reg, name, bases);
    reg', t := s.reg, s.ty;
  }

  /** Read `PluginExtended` from class `t` of root `root`. */
  method Extended(reg: Registry, root: TypeId, t: TypeId) returns (reg': Registry, x: TypeId)
    requires Wf(reg) && Rooted(reg, t) && RootOf(reg, t) == root
    requires PluginBaseId in reg.types && !Rooted(reg, PluginBaseId)
    ensures Wf(reg') && PluginBaseId in reg'.types && !Rooted(reg', PluginBaseId)
    ensures forall u :: Rooted(reg, u) ==> Rooted(reg', u) && RootOf(reg', u) == RootOf(reg, u)
    ensures root in reg.roots && reg'.roots.Keys == reg.roots.Keys
    ensures reg'.roots[root] == RootState({x}, true)
    ensures forall q :: q in reg.roots && q != root ==> reg'.roots[q] == reg.roots[q]
    ensures reg.roots[root].cacheValid ==> reg' == reg
    ensures !reg.roots[root].cacheValid ==>
      x == reg.next && reg'.next == x + 1 && reg'.types[x].bases == reg.roots[root].frontier
  {
    GetExtendedPreservesWf(reg, t);
    var g := GetExtended(reg, t).value;
    reg', x := g.reg, g.ty;
  }

  /**
    The set arithmetic each step of the demonstration performs, kept apart
    from the registry invariant so that the solver meets it on its own.
  */
  lemma DemoArithmetic()
    ensures {} + {1} == {1} && {1} + {2} == {1, 2}
    ensures ({2} - {2}) + {3} == {3}
    ensures ({1} - {1}) + {4} == {4} && ({4} - {1}) + {5} == {4, 5} && ({4, 5} - {1}) + {6} == {4, 5, 6}
    ensures ({4, 5, 6} - {4, 5}) + {7} == {6, 7}
    ensures ({6, 7} - {5}) + {8} == {6, 7, 8}
    ensures ({6, 7, 8} - {7}) + {9} == {6, 8, 9}
  {
  }

  /** The two roots of the demonstration and `OtherSub(OtherRoot)`: ids 1, 2 and 3. */
  method DemoRoots() returns (reg: Registry)
    ensures Wf(reg) && PluginBaseId in reg.types && !Rooted(reg, PluginBaseId)
    ensures reg.next == 4
    ensures Rooted(reg, 1) && RootOf(reg, 1) == 1
    ensures reg.roots.Keys == {1, 2}
    ensures reg.roots[1] == RootState({1}, false)
    ensures reg.roots[2] == RootState({3}, false)
  {
    DemoArithmetic();
    var t;
    reg := Init();
    assert reg.roots.Keys == {};
    reg, t := AddRoot(reg, "Root");
    assert reg.roots.Keys == {1};
    reg, t := AddRoot(reg, "OtherRoot");
    assert reg.roots.Keys == {1, 2};
    reg, t := AddPlugin(reg, 2, "OtherSub", {2});
  }

  /** `A, B, C(Root)`: ids 4, 5 and 6 replace `Root` in its frontier. */
  method DemoBranches(reg0: Registry) returns (reg: Registry)
    requires Wf(reg0) && PluginBaseId in reg0.types && !Rooted(reg0, PluginBaseId)
    requires reg0.next == 4 && Rooted(reg0, 1) && RootOf(reg0, 1) == 1 && 1 in reg0.roots
    requires reg0.roots[1].frontier == {1}
    ensures Wf(reg) && PluginBaseId in reg.types && !Rooted(reg, PluginBaseId)
    ensures reg.next == 7
    ensures Rooted(reg, 4) && RootOf(reg, 4) == 1
    ensures Rooted(reg, 5) && RootOf(reg, 5) == 1
    ensures Rooted(reg, 6) && reg.types[6].name == "C"
    ensures reg.roots.Keys == reg0.roots.Keys && reg.roots[1].frontier == {4, 5, 6}
    ensures forall q :: q in reg0.roots && q != 1 ==> reg.roots[q] == reg0.roots[q]
  {
    DemoArithmetic();
    var t;
    reg := reg0;
    reg, t := AddPlugin(reg, 1, "A", {1});
    reg, t := AddPlugin(reg, 1, "B", {1});
    reg, t := AddPlugin(reg, 1, "C", {1});
  }

  /** `D(A, B)`, `E(B)`, `F(D)`: ids 7, 8 and 9 leave the frontier `{C, E, F}`. */
  method DemoMerges(reg0: Registry) returns (reg: Registry)
    requires Wf(reg0) && PluginBaseId in reg0.types && !Rooted(reg0, PluginBaseId)
    requires reg0.next == 7 && 1 in reg0.roots
    requires Rooted(reg0, 4) && RootOf(reg0, 4) == 1
    requires Rooted(reg0, 5) && RootOf(reg0, 5) == 1
    requires reg0.roots[1].frontier == {4, 5, 6}
    requires Rooted(reg0, 6) && reg0.types[6].name == "C"
    ensures Wf(reg) && PluginBaseId in reg.types && !Rooted(reg, PluginBaseId)
    ensures reg.next == 10
    ensures Rooted(reg, 6) && Rooted(reg, 8) && Rooted(reg, 9)
    ensures reg.types[6].name == "C" && reg.types[8].name == "E" && reg.types[9].name == "F"
    ensures Rooted(reg, 8) && RootOf(reg, 8) == 1
    ensures Rooted(reg, 9) && RootOf(reg, 9) == 1
    ensures reg.roots.Keys == reg0.roots.Keys && reg.roots[1] == RootState({6, 8, 9}, false)
    ensures forall q :: q in reg0.roots && q != 1 ==> reg.roots[q] == reg0.roots[q]
  {
    DemoArithmetic();
    var t;
    reg := reg0;
    reg, t := AddPlugin(reg, 1, "D", {4, 5});
    reg, t := AddPlugin(reg, 1, "E", {5});
    reg, t := AddPlugin(reg, 1, "F", {7});
  }

  /**
    `F.PluginExtended` builds the composite (id 10) over `{C, E, F}`;
    `E.PluginExtended` then finds the cache valid and returns the same class.
  */
  method DemoLookups(reg0: Registry) returns (reg: Registry, xt: TypeId, xt2: TypeId, xtBases: set<TypeId>)
    requires Wf(reg0) && PluginBaseId in reg0.types && !Rooted(reg0, PluginBaseId)
    requires reg0.next == 10 && 1 in reg0.roots
    requires Rooted(reg0, 8) && RootOf(reg0, 8) == 1
    requires Rooted(reg0, 9) && RootOf(reg0, 9) == 1
    requires reg0.roots[1] == RootState({6, 8, 9}, false)
    ensures Wf(reg) && PluginBaseId in reg.types && !Rooted(reg, PluginBaseId)
    ensures reg.next == 11
    ensures Rooted(reg, 8) && RootOf(reg, 8) == 1
    ensures Rooted(reg, 9) && RootOf(reg, 9) == 1
    ensures xt == 10 && xt2 == xt && xtBases == {6, 8, 9}
    ensures reg.roots.Keys == reg0.roots.Keys && reg.roots[1] == RootState({10}, true)
    ensures forall q :: q in reg0.roots && q != 1 ==> reg.roots[q] == reg0.roots[q]
  {
    reg, xt := Extended(reg0, 1, 9);
    xtBases := reg.types[xt].bases;
    reg, xt2 := Extended(reg, 1, 8);
    assert {xt2} == {xt};
  }

  /** Declaring `ETC(F)` after the lookups makes `E.PluginExtended` build a new class. */
  method DemoRedeclare(reg0: Registry) returns (reg: Registry, xt3: TypeId)
    requires Wf(reg0) && PluginBaseId in reg0.types && !Rooted(reg0, PluginBaseId)
    requires reg0.next == 11 && 1 in reg0.roots
    requires Rooted(reg0, 8) && RootOf(reg0, 8) == 1
    requires Rooted(reg0, 9) && RootOf(reg0, 9) == 1
    requires reg0.roots[1] == RootState({10}, true)
    ensures xt3 == 12
    ensures reg.roots.Keys == reg0.roots.Keys
    ensures forall q :: q in reg0.roots && q != 1 ==> reg.roots[q] == reg0.roots[q]
  {
    var etc;
    reg, etc := AddPlugin(reg0, 1, "ETC", {9});
    reg, xt3 := Extended(reg, 1, 8);
  }

  /** The names of the frontier of `Root` after the merges: `C`, `E` and `F`. */
  method DemoFrontierNames(reg: Registry) returns (names: set<string>)
    requires 1 in reg.roots && reg.roots[1].frontier == {6, 8, 9}
    requires Rooted(reg, 6) && Rooted(reg, 8) && Rooted(reg, 9)
    requires reg.types[6].name == "C" && reg.types[8].name == "E" && reg.types[9].name == "F"
    ensures names == set f | f in reg.roots[1].frontier && f in reg.types :: reg.types[f].name
    ensures names == {"C", "E", "F"}
  {
    names := set f | f in reg.roots[1].frontier && f in reg.types :: reg.types[f].name;
    assert names == {reg.types[6].name, reg.types[8].name, reg.types[9].name};
  }

  /**
    Replays the demonstration: direct subclasses of `PluginBase` become
    roots, the diamond under `Root` leaves the frontier `{C, E, F}`, two reads
    of `PluginExtended` from `F` and `E` give the same composite whose bases
    are `{C, E, F}`, and after declaring `ETC(F)` the next read gives a
    different one. `OtherRoot` keeps its own frontier `{OtherSub}` throughout.
  */
  method DemoTree() returns (frontier: set<TypeId>, frontierNames: set<string>, otherFrontier: set<TypeId>,
                             xt: TypeId, xt2: TypeId, xt3: TypeId, xtBases: set<TypeId>)
    ensures frontier == {6, 8, 9} && frontierNames == {"C", "E", "F"}
    ensures otherFrontier == {3}
    ensures xtBases == {6, 8, 9}
    ensures xt == xt2 && xt3 != xt2
  {
    var reg := DemoRoots();
    reg := DemoBranches(reg);
    reg := DemoMerges(reg);
    frontier := reg.roots[1].frontier;
    frontierNames := DemoFrontierNames(reg);
    reg, xt, xt2, xtBases := DemoLookups(reg);
    reg, xt3 := DemoRedeclare(reg);
    otherFrontier := reg.roots[2].frontier;
  }
}
