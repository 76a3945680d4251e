/**
  The "lowest plugins" reading of a root's frontier: it holds exactly the
  classes under that root that no declared class has subclassed yet.
*/
module Lineage {
  import opened Wrappers
  import opened PluginRegistry
  import opened PluginMeta

  /** `a` is a proper ancestor of `t`: reachable through one or more base links. */
  ghost predicate Ancestor(reg: Registry, a: TypeId, t: TypeId)
    decreases t
  {
    t in reg.types &&
    exists b :: b in reg.types[t].bases && b < t && (b == a || Ancestor(reg, a, b))
  }

  /** No declared class lists `t` among its bases. */
  ghost predicate IsLeaf(reg: Registry, t: TypeId)
  {
    forall c :: c in reg.types ==> t !in reg.types[c].bases
  }

  /** The classes under root `r` that nothing derives from: the reference frontier. */
  ghost function Leaves(reg: Registry, r: TypeId): set<TypeId>
  {
    set t | t in reg.types && reg.types[t].root == Some(r) && IsLeaf(reg, t)
  }

  /** Every root's frontier is exactly its set of leaves. */
  ghost predicate Lowest(reg: Registry)
  {
    forall r :: r in reg.roots ==> reg.roots[r].frontier == Leaves(reg, r)
  }

  lemma InitIsLowest()
    ensures Lowest(Init())
  {
  }

  /** Leafhood after a registration: the bases stop being leaves, the new class is one. */
  lemma LeavesAfterRegister(reg: Registry, name: string, bases: set<TypeId>)
    requires Wf(reg) && bases <= reg.types.Keys && OneRoot(reg, bases)
    ensures var s := Register(reg, name, bases);
      && IsLeaf(s.reg, s.ty)
      && forall t :: t in reg.types ==> (IsLeaf(s.reg, t) <==> IsLeaf(reg, t) && t !in bases)
  {
    var s := Register(reg, name, bases);
    forall c | c in s.reg.types ensures s.ty !in s.reg.types[c].bases {
      if c != s.ty {
        assert c in reg.types && c < reg.next;
      }
    }
    forall t | t in reg.types
      ensures IsLeaf(s.reg, t) <==> IsLeaf(reg, t) && t !in bases
    {
      if IsLeaf(s.reg, t) {
        forall c | c in reg.types ensures t !in reg.types[c].bases {
          assert s.reg.types[c] == reg.types[c];
        }
        assert t !in s.reg.types[s.ty].bases;
      }
      if IsLeaf(reg, t) && t !in bases {
        forall c | c in s.reg.types ensures t !in s.reg.types[c].bases {
          if c != s.ty { assert s.reg.types[c] == reg.types[c]; }
        }
      }
    }
  }

  /** A registration keeps every frontier equal to its root's leaves. */
  lemma RegisterKeepsLowest(reg: Registry, name: string, bases: set<TypeId>)
    requires Wf(reg) && Lowest(reg) && bases <= reg.types.Keys && OneRoot(reg, bases)
    ensures Lowest(Register(reg, name, bases).reg)
  {
    var s := Register(reg, name, bases);
    LeavesAfterRegister(reg, name, bases);
    forall q | q in s.reg.roots ensures s.reg.roots[q].frontier == Leaves(s.reg, q) {
      LeavesAfterAdd(reg, s.reg, s.ty, bases, q);
      RootKeepsLowest(reg, name, bases, q);
    }
  }

  /** The leaves of any root after one class `n` with bases `bases` is added. */
  lemma LeavesAfterAdd(reg: Registry, reg': Registry, n: TypeId, bases: set<TypeId>, q: TypeId)
    requires n !in reg.types && reg'.types.Keys == reg.types.Keys + {n}
    requires forall t :: t in reg.types ==> reg'.types[t] == reg.types[t]
    requires IsLeaf(reg', n)
    requires forall t :: t in reg.types ==> (IsLeaf(reg', t) <==> IsLeaf(reg, t) && t !in bases)
    ensures Leaves(reg', q) ==
      (Leaves(reg, q) - bases) + (if reg'.types[n].root == Some(q) then {n} else {})
  {
  }

  lemma RootKeepsLowest(reg: Registry, name: string, bases: set<TypeId>, q: TypeId)
    requires Wf(reg) && Lowest(reg) && bases <= reg.types.Keys && OneRoot(reg, bases)
    requires q in Register(reg, name, bases).reg.roots
    requires var s := Register(reg, name, bases);
      Leaves(s.reg, q) == (Leaves(reg, q) - bases) + (if s.reg.types[s.ty].root == Some(q) then {s.ty} else {})
    ensures var s := Register(reg, name, bases); s.reg.roots[q].frontier == Leaves(s.reg, q)
  {
    var s := Register(reg, name, bases);
    var n := s.ty;
    if q == n {
      NothingUnderFreshId(reg);
    } else if q == RootOf(s.reg, n) {
      assert reg.roots[q].frontier == Leaves(reg, q);
    } else {
      assert reg.roots[q].frontier == Leaves(reg, q);
      forall t | t in Leaves(reg, q) && t in bases ensures false {
        assert Rooted(reg, t);
      }
    }
  }

  /** No existing class belongs to a root with the next fresh id. */
  lemma NothingUnderFreshId(reg: Registry)
    requires IdsFresh(reg) && RootsWf(reg)
    ensures forall t :: t in reg.types ==> reg.types[t].root != Some(reg.next)
  {
    forall t | t in reg.types && Rooted(reg, t) ensures RootOf(reg, t) != reg.next {
      assert RootWf(reg, t);
    }
  }

  /** Building a composite keeps every frontier equal to its root's leaves. */
  lemma ComposeKeepsLowest(reg: Registry, root: TypeId)
    requires Wf(reg) && Lowest(reg) && root in reg.roots
    ensures Lowest(Compose(reg, root).reg)
  {
    var frontier := reg.roots[root].frontier;
    FrontierUnderRoot(reg, root);
    var d := Register(reg, ExtendedName(reg, root), frontier);
    RegisterKeepsLowest(reg, ExtendedName(reg, root), frontier);
    assert RootOf(d.reg, d.ty) == root;
    assert d.reg.roots[root].frontier == {d.ty};
    SealKeepsLowest(d.reg, root, d.ty);
  }

  /** Setting a cache flag changes no frontier and no class, so the frontiers stay the leaves. */
  lemma SealKeepsLowest(reg: Registry, root: TypeId, c: TypeId)
    requires Lowest(reg) && root in reg.roots && reg.roots[root].frontier == {c}
    ensures Lowest(reg.(roots := reg.roots[root := RootState({c}, true)]))
  {
  }

  /** The invariant of every reachable registry. */
  ghost predicate Valid(reg: Registry)
  {
    Wf(reg) && Lowest(reg)
  }

  /** A successful declaration keeps the registry valid; a failed one leaves it as it was. */
  lemma DeclarePreservesValid(reg: Registry, name: string, bases: set<TypeId>, namespace: set<string>)
    requires Valid(reg) && bases <= reg.types.Keys && OneRoot(reg, bases)
    ensures Declare(reg, name, bases, namespace).Success? ==>
      Valid(Declare(reg, name, bases, namespace).value.reg)
  {
    if Declare(reg, name, bases, namespace).Success? {
      RegisterPreservesWf(reg, name, bases);
      RegisterKeepsLowest(reg, name, bases);
    }
  }

  /** `PluginExtended` keeps the registry valid. */
  lemma GetExtendedPreservesValid(reg: Registry, t: TypeId)
    requires Valid(reg) && t in reg.types
    ensures GetExtended(reg, t).Success? ==> Valid(GetExtended(reg, t).value.reg)
  {
    GetExtendedPreservesWf(reg, t);
    if Rooted(reg, t) {
      var root := RootOf(reg, t);
      assert RootWf(reg, t);
      if !reg.roots[root].cacheValid {
        ComposeKeepsLowest(reg, root);
      }
    }
  }

  /** An ancestor is a base of some declared class, so it is not a leaf. */
  lemma {:induction false} AncestorIsNotLeaf(reg: Registry, a: TypeId, t: TypeId)
    requires Ancestor(reg, a, t)
    ensures !IsLeaf(reg, a)
    decreases t
  {
    var b :| b in reg.types[t].bases && b < t && (b == a || Ancestor(reg, a, b));
    if b != a {
      AncestorIsNotLeaf(reg, a, b);
    }
  }

  /** Being an ancestor is transitive. */
  lemma {:induction false} AncestorTransitive(reg: Registry, a: TypeId, b: TypeId, c: TypeId)
    requires Ancestor(reg, a, b) && Ancestor(reg, b, c)
    ensures Ancestor(reg, a, c)
    decreases c
  {
    var d :| d in reg.types[c].bases && d < c && (d == b || Ancestor(reg, b, d));
    if d != b {
      AncestorTransitive(reg, a, b, d);
    }
  }

  /**
    Lowest plugins, first half: no frontier member is a proper ancestor of
    any declared class, in particular of another frontier member.
  */
  lemma {:induction false} FrontierHasNoDescendants(reg: Registry, r: TypeId, f: TypeId, t: TypeId)
    requires Lowest(reg) && r in reg.roots && f in reg.roots[r].frontier
    ensures !Ancestor(reg, f, t)
  {
    if Ancestor(reg, f, t) {
      AncestorIsNotLeaf(reg, f, t);
    }
  }

  /** Every class under a root can be followed down to a leaf of that root. */
  lemma {:induction false} ReachesLeaf(reg: Registry, t: TypeId) returns (f: TypeId)
    requires Wf(reg) && Rooted(reg, t)
    ensures f in Leaves(reg, RootOf(reg, t))
    ensures f == t || Ancestor(reg, t, f)
    decreases reg.next - t
  {
    if IsLeaf(reg, t) {
      f := t;
    } else {
      var c :| c in reg.types && t in reg.types[c].bases;
      assert t < c < reg.next;
      assert BaseRootsAgree(reg, c);
      var g := ReachesLeaf(reg, c);
      assert Ancestor(reg, t, c);
      if g != c {
        AncestorTransitive(reg, t, c, g);
      }
      f := g;
    }
  }

  /**
    Lowest plugins, second half: every class declared under a root is an
    ancestor-or-self of some member of that root's frontier.
  */
  lemma FrontierCoversRoot(reg: Registry, t: TypeId) returns (f: TypeId)
    requires Valid(reg) && Rooted(reg, t)
    ensures RootOf(reg, t) in reg.roots
    ensures f in reg.roots[RootOf(reg, t)].frontier
    ensures f == t || Ancestor(reg, t, f)
  {
    assert RootWf(reg, t);
    f := ReachesLeaf(reg, t);
  }
}
