/**
  What the graph looks like after the placeholders were replaced: exactly the
  graph read through them, if and only if no holder of a placeholder was missed.
 */
module GoKnotTrees {
  import opened GoDecode
  import opened GoDecodeProofs
  import opened GoUnfold
  import opened GoKnot
  import opened GoKnotLoops
  import opened GoKnotEnds

  /** Object `x` is reached from `v` in at most `n` steps, looking through placeholders. */
  ghost predicate Reaches(st: State, v: Val, x: nat, n: nat)
    decreases n
  {
    var w := Resolve(st.cache, st.store, v);
    && IsType(st.store, w)
    && (w.r == x || (n > 0 && exists i :: 0 <= i < |Kids(st.store[w.r])| && Reaches(st, Kids(st.store[w.r])[i], x, n - 1)))
  }

  /** Every reachable object that holds a placeholder is stored inside `root`, where the traversal finds it. */
  ghost predicate Complete(st: State, root: nat) {
    forall x, n: nat :: Reaches(st, Ref(root), x, n) && Holder(st.store, x) ==> Under(st.store, root, x)
  }

  ghost predicate CompleteFrom(st: State, root: nat, v: Val, n: nat) {
    forall x, m: nat | m < n :: Reaches(st, v, x, m) && Holder(st.store, x) ==> Under(st.store, root, x)
  }

  predicate HasPlaceholder(t: Tree) {
    t.Placeholder? || (t.Node? && exists i | 0 <= i < |t.kids| :: HasPlaceholder(t.kids[i]))
  }

  lemma HolderIsOpen(store: seq<Obj>, x: nat)
    requires x < |store| && Holder(store, x)
    ensures Open(store, x)
  {
    assert Under(store, x, x);
  }

  /** The components of a visited object after the traversal. */
  lemma KidsAfter(st: State, t: seq<Obj>, root: nat, x: nat)
    requires Ready(st.cache, st.store) && FixesUnder(st.cache, st.store, st.store, t, root) && x < |st.store|
    requires Holder(st.store, x) ==> Under(st.store, root, x)
    ensures SameKind(st.store[x], t[x]) && |Kids(t[x])| == |Kids(st.store[x])|
    ensures forall i | 0 <= i < |Kids(t[x])| :: Kids(t[x])[i] == Resolve(st.cache, st.store, Kids(st.store[x])[i])
  {
    if Holder(st.store, x) {
      HolderIsOpen(st.store, x);
    } else {
      forall i | 0 <= i < |Kids(st.store[x])|
        ensures Resolve(st.cache, st.store, Kids(st.store[x])[i]) == Kids(st.store[x])[i]
      {
        assert Kids(st.store[x])[i].Ref? ==> HasKid(st.store, x, i);
      }
    }
  }

  lemma FixesKeepsKinds(st: State, t: seq<Obj>, root: nat, x: nat)
    requires FixesUnder(st.cache, st.store, st.store, t, root) && x < |st.store|
    ensures SameKind(st.store[x], t[x])
  {
  }

  /** The same after any traversal that ended. */
  lemma KidsAfterRun(st: State, t: seq<Obj>, root: nat, x: nat)
    requires Ready(st.cache, st.store) && Progress(st.cache, st.store, st.store, t) && x < |st.store|
    requires SettledUnder(st.cache, st.store, t, root) && (Holder(st.store, x) ==> Under(st.store, root, x))
    ensures x < |t| && SameKind(st.store[x], t[x]) && |Kids(t[x])| == |Kids(st.store[x])|
    ensures forall i | 0 <= i < |Kids(t[x])| :: Kids(t[x])[i] == Resolve(st.cache, st.store, Kids(st.store[x])[i])
  {
    SameKids(st.store, t, x);
    forall i | 0 <= i < |Kids(t[x])|
      ensures Kids(t[x])[i] == Resolve(st.cache, st.store, Kids(st.store[x])[i])
    {
      assert ProgressAt(st.cache, st.store, st.store, t, x, i);
      assert Kids(st.store[x])[i].Ref? ==> HasKid(st.store, x, i);
      if Holder(st.store, x) && HasKid(st.store, x, i) {
        assert SettledAt(st.cache, st.store, t, x);
        assert Settled(st.cache, st.store, t, x, i);
      }
    }
  }

  lemma {:induction false} PlainIsGraph(st: State, t: seq<Obj>, root: nat, v: Val, n: nat)
    requires Ready(st.cache, st.store) && Progress(st.cache, st.store, st.store, t)
    requires SettledUnder(st.cache, st.store, t, root) && CompleteFrom(st, root, v, n)
    requires v.Ref? ==> v.r < |st.store|
    ensures PlainTree(t, Resolve(st.cache, st.store, v), n) == GraphTree(st, v, n)
    decreases n
  {
    var w := Resolve(st.cache, st.store, v);
    if n > 0 && w.Ref? {
      var o := st.store[w.r];
      assert IsType(st.store, w);
      assert Reaches(st, v, w.r, 0);
      KidsAfterRun(st, t, root, w.r);
      forall i | 0 <= i < |Kids(o)|
        ensures PlainTree(t, Kids(t[w.r])[i], n - 1) == GraphTree(st, Kids(o)[i], n - 1)
      {
        assert forall x, m: nat :: Reaches(st, Kids(o)[i], x, m) ==> Reaches(st, v, x, m + 1);
        assert Kids(o)[i].Ref? ==> HasKid(st.store, w.r, i);
        PlainIsGraph(st, t, root, Kids(o)[i], n - 1);
      }
    }
  }

  /** Where no placeholder shows, what shows is the graph read through placeholders. */
  lemma {:induction false} PlainOrPlaceholder(st: State, t: seq<Obj>, v: Val, n: nat)
    requires Ready(st.cache, st.store) && Progress(st.cache, st.store, st.store, t)
    requires v.Ref? ==> v.r < |st.store|
    requires !HasPlaceholder(PlainTree(t, Resolve(st.cache, st.store, v), n))
    ensures PlainTree(t, Resolve(st.cache, st.store, v), n) == GraphTree(st, v, n)
    decreases n
  {
    var w := Resolve(st.cache, st.store, v);
    if n > 0 && w.Ref? {
      var o := st.store[w.r];
      assert IsType(st.store, w);
      SameKids(st.store, t, w.r);
      var tree := PlainTree(t, w, n);
      forall i | 0 <= i < |Kids(o)|
        ensures PlainTree(t, Kids(t[w.r])[i], n - 1) == GraphTree(st, Kids(o)[i], n - 1)
      {
        assert ProgressAt(st.cache, st.store, st.store, t, w.r, i);
        assert Kids(o)[i].Ref? ==> HasKid(st.store, w.r, i);
        assert tree.kids[i] == PlainTree(t, Kids(t[w.r])[i], n - 1);
        KidShows(st, t, Kids(o)[i], Kids(t[w.r])[i], n - 1);
        if n > 1 {
          PlainOrPlaceholder(st, t, Kids(o)[i], n - 1);
        }
      }
    }
  }

  /** A component that was not replaced and does not show as a placeholder is no placeholder. */
  lemma KidShows(st: State, t: seq<Obj>, v: Val, u: Val, n: nat)
    requires SameLayout(st.store, t) && (v.Ref? ==> v.r < |st.store|)
    requires u == v || u == Resolve(st.cache, st.store, v)
    requires n > 0 ==> !HasPlaceholder(PlainTree(t, u, n))
    ensures n > 0 ==> u == Resolve(st.cache, st.store, v)
  {
    if v.Ref? {
      assert SameKind(st.store[v.r], t[v.r]);
    }
  }

  /** Read through its placeholders, the graph shows none. */
  lemma {:induction false} GraphHasNone(st: State, v: Val, n: nat)
    requires Ready(st.cache, st.store) && (v.Ref? ==> v.r < |st.store|)
    ensures !HasPlaceholder(GraphTree(st, v, n))
    decreases n
  {
    var w := Resolve(st.cache, st.store, v);
    if n > 0 && w.Ref? {
      assert IsType(st.store, w);
      forall i | 0 <= i < |Kids(st.store[w.r])|
        ensures !HasPlaceholder(GraphTree(st, Kids(st.store[w.r])[i], n - 1))
      {
        assert Kids(st.store[w.r])[i].Ref? ==> HasKid(st.store, w.r, i);
        GraphHasNone(st, Kids(st.store[w.r])[i], n - 1);
      }
    }
  }

  /** A reachable holder that the traversal missed leaves its placeholder reachable. */
  lemma {:induction false} MissedHolderShows(st: State, t: seq<Obj>, root: nat, v: Val, x: nat, n: nat)
    requires Ready(st.cache, st.store) && FixesUnder(st.cache, st.store, st.store, t, root)
    requires Reaches(st, v, x, n) && Holder(st.store, x) && !Under(st.store, root, x)
    ensures HasPlaceholder(PlainTree(t, Resolve(st.cache, st.store, v), n + 2))
    decreases n
  {
    var w := Resolve(st.cache, st.store, v);
    var o := st.store[w.r];
    FixesKeepsKinds(st, t, root, w.r);
    var tree := PlainTree(t, w, n + 2);
    if Holder(st.store, w.r) && !Under(st.store, root, w.r) {
      var i: nat :| HasKid(st.store, w.r, i) && st.store[Kid(st.store, w.r, i)].Backref?;
      FixesKeepsKinds(st, t, root, Kid(st.store, w.r, i));
      var b := Kid(st.store, w.r, i);
      assert t[w.r] == o && Kids(o)[i] == Ref(b) && t[b].Backref?;
      assert tree.kids[i] == PlainTree(t, Ref(b), n + 1);
      assert HasPlaceholder(tree.kids[i]);
    } else {
      KidsAfter(st, t, root, w.r);
      var i :| 0 <= i < |Kids(o)| && Reaches(st, Kids(o)[i], x, n - 1);
      MissedHolderShows(st, t, root, Kids(o)[i], x, n - 1);
      assert HasPlaceholder(tree.kids[i]);
    }
  }

  /**
    After any traversal that ended, a placeholder left reachable is the only way
    to differ from the graph read through the placeholders, and none is left if
    no reachable holder lies outside the root.
   */
  lemma RunShowsGraph(st: State, root: nat, depth: nat)
    requires Ready(st.cache, st.store) && IsType(st.store, Ref(root))
    requires Remove(st.cache, st.store, Ref(root), depth).Done?
    ensures var t := Remove(st.cache, st.store, Ref(root), depth).store;
            && (forall n: nat :: PlainTree(t, Ref(root), n) == GraphTree(st, Ref(root), n)
                                 <==> !HasPlaceholder(PlainTree(t, Ref(root), n)))
            && (Complete(st, root) ==> forall n: nat :: PlainTree(t, Ref(root), n) == GraphTree(st, Ref(root), n))
  {
    var t := Remove(st.cache, st.store, Ref(root), depth).store;
    ProgressNone(st.cache, st.store, st.store);
    RemoveProgress(st.cache, st.store, st.store, Ref(root), depth);
    Visits(st.cache, st.store, st.store, root, depth);
    hide Remove;
    hide SettledUnder;
    hide Progress;
    forall n: nat
      ensures PlainTree(t, Ref(root), n) == GraphTree(st, Ref(root), n) <==> !HasPlaceholder(PlainTree(t, Ref(root), n))
    {
      GraphHasNone(st, Ref(root), n);
      if !HasPlaceholder(PlainTree(t, Ref(root), n)) {
        PlainOrPlaceholder(st, t, Ref(root), n);
      }
    }
    if Complete(st, root) {
      forall n: nat ensures PlainTree(t, Ref(root), n) == GraphTree(st, Ref(root), n) {
        PlainIsGraph(st, t, root, Ref(root), n);
      }
    }
  }

  /**
    If every open object is stored once, then after a traversal that ended the
    graph is the one read through the placeholders, and no placeholder is left
    reachable, exactly when `Complete`.
   */
  lemma ReplacedExactlyWhenComplete(st: State, root: nat, depth: nat)
    requires Ready(st.cache, st.store) && IsType(st.store, Ref(root)) && OnePath(st.store, root)
    requires Remove(st.cache, st.store, Ref(root), depth).Done?
    ensures var t := Remove(st.cache, st.store, Ref(root), depth).store;
            && ((forall n: nat :: PlainTree(t, Ref(root), n) == GraphTree(st, Ref(root), n)) <==> Complete(st, root))
            && ((forall n: nat :: !HasPlaceholder(PlainTree(t, Ref(root), n))) <==> Complete(st, root))
  {
    hide *;
    RunShowsGraph(st, root, depth);
    if !Complete(st, root) {
      RootInStore(st, root);
      RemoveFixesFresh(st.cache, st.store, root, depth);
      var t := Remove(st.cache, st.store, Ref(root), depth).store;
      var n := MissedShows(st, t, root);
      assert PlainTree(t, Ref(root), n) != GraphTree(st, Ref(root), n);
    }
  }

  lemma RootInStore(st: State, root: nat)
    requires IsType(st.store, Ref(root))
    ensures root < |st.store|
  {
  }

  lemma MissedShows(st: State, t: seq<Obj>, root: nat) returns (n: nat)
    requires Ready(st.cache, st.store) && IsType(st.store, Ref(root))
    requires FixesUnder(st.cache, st.store, st.store, t, root) && !Complete(st, root)
    ensures HasPlaceholder(PlainTree(t, Ref(root), n))
  {
    var x, m: nat :| Reaches(st, Ref(root), x, m) && Holder(st.store, x) && !Under(st.store, root, x);
    MissedHolderShows(st, t, root, Ref(root), x, m);
    n := m + 2;
  }
}
