/**
  The caching contract of `PluginExtended`: lookups without an intervening
  declaration return the identical composite from any class under the root,
  a declaration under the root forces a brand-new composite, and a declaration
  under another root changes nothing.
*/
module Cache {
  import opened Wrappers
  import opened PluginRegistry
  import opened PluginMeta

  /** A class of the registry and the root it resolves to. */
  predicate Under(reg: Registry, t: TypeId, root: TypeId)
  {
    Rooted(reg, t) && RootOf(reg, t) == root
  }

  /**
    Two lookups from any two classes under the same root, with nothing
    declared in between, return the identical composite, and the second one
    changes no state.
  */
  lemma RepeatedLookupIsIdentical(reg: Registry, t1: TypeId, t2: TypeId)
    requires Wf(reg) && Rooted(reg, t1) && Under(reg, t2, RootOf(reg, t1))
    ensures GetExtended(reg, t1).Success?
    ensures Wf(GetExtended(reg, t1).value.reg) && t2 in GetExtended(reg, t1).value.reg.types
    ensures var first := GetExtended(reg, t1).value;
      GetExtended(first.reg, t2) == Success(first)
  {
    GetExtendedPreservesWf(reg, t1);
    var first := GetExtended(reg, t1).value;
    assert RootWf(reg, t1);
    assert first.reg.types[t2] == reg.types[t2];
  }

  /**
    A cache hit answers with the single frontier member, a class named
    `<Root>PluginExtended`. That it is the composite the most recent read
    built is `ValidCacheHoldsLastRead`.
  */
  lemma CacheHitReturnsFrontier(reg: Registry, t: TypeId)
    requires Wf(reg) && Rooted(reg, t)
    ensures RootOf(reg, t) in reg.roots
    ensures reg.roots[RootOf(reg, t)].cacheValid ==>
      && GetExtended(reg, t).Success?
      && reg.roots[RootOf(reg, t)].frontier == {GetExtended(reg, t).value.ty}
      && reg.types[GetExtended(reg, t).value.ty].name == ExtendedName(reg, RootOf(reg, t))
  {
  }

  /**
    After any declaration under a root, the next lookup from any class of
    that root builds a composite that is distinct from every class that
    existed before, in particular from every composite returned earlier.
  */
  lemma DeclarationForcesNewComposite(
    reg: Registry, name: string, bases: set<TypeId>, namespace: set<string>, t: TypeId)
    requires Wf(reg) && bases <= reg.types.Keys && OneRoot(reg, bases)
    requires Declare(reg, name, bases, namespace).Success?
    requires var d := Declare(reg, name, bases, namespace).value;
      t in d.reg.types && Under(d.reg, t, RootOf(d.reg, d.ty))
    ensures var d := Declare(reg, name, bases, namespace).value;
      && Wf(d.reg)
      && GetExtended(d.reg, t).Success?
      && GetExtended(d.reg, t).value.ty !in d.reg.types
      && (forall x :: x in reg.types ==> GetExtended(d.reg, t).value.ty != x)
  {
    RegisterPreservesWf(reg, name, bases);
    var d := Declare(reg, name, bases, namespace).value;
    assert RootWf(d.reg, d.ty);
  }

  /** A declaration under one root leaves another root's cached composite in place. */
  lemma OtherRootKeepsComposite(
    reg: Registry, name: string, bases: set<TypeId>, namespace: set<string>, u: TypeId)
    requires Wf(reg) && bases <= reg.types.Keys && OneRoot(reg, bases)
    requires Declare(reg, name, bases, namespace).Success?
    requires Rooted(reg, u) && reg.roots[RootOf(reg, u)].cacheValid
    requires var d := Declare(reg, name, bases, namespace).value;
      RootOf(d.reg, d.ty) != RootOf(reg, u)
    ensures var d := Declare(reg, name, bases, namespace).value;
      && Wf(d.reg)
      && GetExtended(d.reg, u).Success?
      && GetExtended(d.reg, u).value.ty == GetExtended(reg, u).value.ty
  {
    RegisterPreservesWf(reg, name, bases);
    var d := Declare(reg, name, bases, namespace).value;
    assert RootWf(reg, u);
    assert d.reg.types[u] == reg.types[u];
  }

  /** One thing a program does to the registry: declare a class, or read `PluginExtended`. */
  datatype Event =
    | Declared(name: string, bases: set<TypeId>, namespace: set<string>)
    | Read(t: TypeId)

  /**
    `reg'` is the registry after `e` happens in `reg`. A declaration that
    raises and a read that raises leave the registry as it was.
  */
  ghost predicate Moves(reg: Registry, e: Event, reg': Registry)
  {
    Wf(reg) &&
    match e
    case Declared(name, bases, namespace) =>
      && bases <= reg.types.Keys && OneRoot(reg, bases)
      && var r := Declare(reg, name, bases, namespace);
         reg' == (if r.Success? then r.value.reg else reg)
    case Read(t) =>
      && t in reg.types
      && var r := GetExtended(reg, t);
         reg' == (if r.Success? then r.value.reg else reg)
  }

  /** `e` declares nothing under `root`. */
  ghost predicate Elsewhere(reg: Registry, e: Event, root: TypeId)
    requires Wf(reg)
  {
    match e
    case Declared(name, bases, namespace) =>
      (bases <= reg.types.Keys && OneRoot(reg, bases) && Declare(reg, name, bases, namespace).Success?) ==>
        RootOf(Declare(reg, name, bases, namespace).value.reg, Declare(reg, name, bases, namespace).value.ty) != root
    case Read(_) => true
  }

  /** `root`'s cache is valid and holds `c`. */
  ghost predicate Holds(reg: Registry, root: TypeId, c: TypeId)
  {
    root in reg.roots && reg.roots[root] == RootState({c}, true)
  }

  /** A run: `regs[i + 1]` is the registry after `events[i]` happens in `regs[i]`. */
  ghost predicate Run(regs: seq<Registry>, events: seq<Event>)
  {
    && |regs| == |events| + 1
    && forall i :: 0 <= i < |events| ==> MovesAt(regs, events, i)
  }

  /** Event `i` takes `regs[i]` to `regs[i + 1]`. */
  ghost predicate MovesAt(regs: seq<Registry>, events: seq<Event>, i: nat)
    requires i < |events| < |regs|
  {
    Moves(regs[i], events[i], regs[i + 1])
  }

  /** A cache that holds `c` survives one event that declares nothing under its root. */
  lemma EventKeepsCache(reg: Registry, e: Event, reg': Registry, root: TypeId, c: TypeId)
    requires Moves(reg, e, reg') && Elsewhere(reg, e, root) && Holds(reg, root, c)
    ensures Wf(reg') && Holds(reg', root, c)
  {
    match e
    case Declared(name, bases, namespace) =>
      if Declare(reg, name, bases, namespace).Success? {
        RegisterPreservesWf(reg, name, bases);
      }
    case Read(t) =>
      GetExtendedPreservesWf(reg, t);
      if Rooted(reg, t) && RootOf(reg, t) == root {
        assert reg.roots[root].cacheValid;
      }
  }

  /**
    Once a read has filled `root`'s cache with `c`, any run of reads from any
    class and of declarations under other roots keeps it there: at the end
    every class of `root` still reads `c`, without changing the registry.
  */
  lemma {:induction false} CacheSurvivesRun(regs: seq<Registry>, events: seq<Event>, root: TypeId, c: TypeId)
    requires Run(regs, events) && Wf(regs[0]) && Holds(regs[0], root, c)
    requires forall i :: 0 <= i < |events| ==> Wf(regs[i]) && Elsewhere(regs[i], events[i], root)
    ensures Wf(regs[|events|]) && Holds(regs[|events|], root, c)
    ensures forall t :: Under(regs[|events|], t, root) ==>
      GetExtended(regs[|events|], t) == Success(Step(regs[|events|], c))
    decreases |events|
  {
    if |events| > 0 {
      assert MovesAt(regs, events, 0);
      EventKeepsCache(regs[0], events[0], regs[1], root, c);
      var rest, later := regs[1..], events[1..];
      forall i | 0 <= i < |later| ensures MovesAt(rest, later, i) {
        assert MovesAt(regs, events, i + 1);
      }
      forall i | 0 <= i < |later| ensures Wf(rest[i]) && Elsewhere(rest[i], later[i], root) {
        assert Wf(regs[i + 1]) && Elsewhere(regs[i + 1], events[i + 1], root);
      }
      CacheSurvivesRun(rest, later, root, c);
      assert regs[|events|] == rest[|later|];
    } else {
      forall t | Under(regs[0], t, root) ensures GetExtended(regs[0], t) == Success(Step(regs[0], c)) {
        assert Only({c}) == c;
      }
    }
  }

  /**
    The composite a read builds stays the answer of every later read from
    any class of its root, for as long as nothing is declared under that root.
  */
  lemma LookupSurvivesRun(reg: Registry, t: TypeId, regs: seq<Registry>, events: seq<Event>)
    requires Wf(reg) && Rooted(reg, t)
    requires Run(regs, events) && regs[0] == GetExtended(reg, t).value.reg
    requires forall i :: 0 <= i < |events| ==> Wf(regs[i]) && Elsewhere(regs[i], events[i], RootOf(reg, t))
    ensures Wf(regs[|events|])
    ensures forall u :: Under(regs[|events|], u, RootOf(reg, t)) ==>
      GetExtended(regs[|events|], u) == Success(Step(regs[|events|], GetExtended(reg, t).value.ty))
  {
    GetExtendedPreservesWf(reg, t);
    CacheSurvivesRun(regs, events, RootOf(reg, t), GetExtended(reg, t).value.ty);
  }

  /**
    One event back from a valid cache of `root`: the event declared nothing
    under `root`, and either it was a read from a class of `root` that left
    the cache holding what it returned, or `root` already had the same state.
  */
  lemma ValidCacheOneEventBack(reg: Registry, e: Event, reg': Registry, root: TypeId) returns (filled: bool)
    requires Moves(reg, e, reg') && root in reg'.roots && reg'.roots[root].cacheValid
    ensures Wf(reg) && Elsewhere(reg, e, root)
    ensures filled ==>
      && e.Read? && Under(reg, e.t, root) && GetExtended(reg, e.t).Success?
      && reg'.roots[root] == RootState({GetExtended(reg, e.t).value.ty}, true)
    ensures !filled ==> root in reg.roots && reg.roots[root] == reg'.roots[root]
  {
    match e
    case Declared(name, bases, namespace) =>
      filled := false;
    case Read(t) =>
      filled := Under(reg, t, root);
  }

  /** Extends "nothing declared under `root` after event `i`" by one event. */
  lemma ElsewhereSince(regs: seq<Registry>, events: seq<Event>, root: TypeId, i: nat, n: nat)
    requires |regs| == |events| + 1 && 0 < n <= |events|
    requires forall j :: i < j < n - 1 ==> Wf(regs[j]) && Elsewhere(regs[j], events[j], root)
    requires Wf(regs[n - 1]) && Elsewhere(regs[n - 1], events[n - 1], root)
    ensures forall j :: i < j < n ==> Wf(regs[j]) && Elsewhere(regs[j], events[j], root)
  {
  }

  /**
    At any point `n` of a run from the initial registry, a valid cache holds
    the composite that the most recent read from a class of its root
    returned, and nothing was declared under that root after that read.
  */
  lemma {:induction false} ValidCacheHoldsLastRead(regs: seq<Registry>, events: seq<Event>, root: TypeId, n: nat)
    returns (i: nat, t: TypeId)
    requires Run(regs, events) && regs[0] == Init() && n <= |events|
    requires root in regs[n].roots && regs[n].roots[root].cacheValid
    ensures i < n && events[i] == Read(t) && Wf(regs[i]) && Under(regs[i], t, root)
    ensures GetExtended(regs[i], t).Success?
    ensures regs[n].roots[root] == RootState({GetExtended(regs[i], t).value.ty}, true)
    ensures forall j :: i < j < n ==> Wf(regs[j]) && Elsewhere(regs[j], events[j], root)
    decreases n
  {
    if n == 0 {
      assert false;
    } else {
      assert MovesAt(regs, events, n - 1);
      var filled := ValidCacheOneEventBack(regs[n - 1], events[n - 1], regs[n], root);
      if filled {
        i, t := n - 1, events[n - 1].t;
      } else {
        i, t := ValidCacheHoldsLastRead(regs, events, root, n - 1);
        ElsewhereSince(regs, events, root, i, n);
      }
    }
  }
}
