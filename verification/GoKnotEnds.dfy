/**
  When the in-place replacement ends: a shared object that closes a cycle
  prevents it, an object entered again during its own visit prevents it, and
  nothing else does.
 */
module GoKnotEnds {
  import opened GoDecode
  import opened GoUnfold
  import opened GoKnot
  import opened GoKnotLoops

  // ----- A visit settles everything inside -----

  /** Component `k` of `h` holds its final value. */
  ghost predicate Settled(cache: map<Addr, Val>, s0: seq<Obj>, t: seq<Obj>, h: nat, k: nat) {
    h < |s0| && h < |t| && k < |Kids(s0[h])| && k < |Kids(t[h])| && Kids(t[h])[k] == Resolve(cache, s0, Kids(s0[h])[k])
  }

  ghost predicate SettledAt(cache: map<Addr, Val>, s0: seq<Obj>, t: seq<Obj>, h: nat) {
    forall k: nat | HasKid(s0, h, k) :: Settled(cache, s0, t, h, k)
  }

  /** Every object stored inside `q` was visited. */
  ghost predicate SettledUnder(cache: map<Addr, Val>, s0: seq<Obj>, t: seq<Obj>, q: nat) {
    forall h | Under(s0, q, h) :: SettledAt(cache, s0, t, h)
  }

  lemma SettledStays(cache: map<Addr, Val>, s0: seq<Obj>, t: seq<Obj>, u: seq<Obj>, h: nat)
    requires Ready(cache, s0) && Progress(cache, s0, t, u) && SettledAt(cache, s0, t, h)
    ensures SettledAt(cache, s0, u, h)
  {
    forall k: nat | HasKid(s0, h, k) ensures Settled(cache, s0, u, h, k) {
      assert Settled(cache, s0, t, h, k);
      SameKids(s0, t, h);
      SameKids(s0, u, h);
      assert ProgressAt(cache, s0, t, u, h, k);
      ResolveOnce(cache, s0, Kids(s0[h])[k]);
    }
  }

  lemma SettledUnderStays(cache: map<Addr, Val>, s0: seq<Obj>, t: seq<Obj>, u: seq<Obj>, q: nat)
    requires Ready(cache, s0) && Progress(cache, s0, t, u) && SettledUnder(cache, s0, t, q)
    ensures SettledUnder(cache, s0, u, q)
  {
    hide Ready;
    hide Progress;
    hide SettledAt;
    forall h | Under(s0, q, h) ensures SettledAt(cache, s0, u, h) {
      SettledStays(cache, s0, t, u, h);
    }
  }

  /** The components of `r` before the `i`-th were visited. */
  ghost predicate SettledKids(cache: map<Addr, Val>, s0: seq<Obj>, t: seq<Obj>, r: nat, i: nat) {
    forall j | 0 <= j < i && HasKid(s0, r, j) :: SettledUnder(cache, s0, t, Kid(s0, r, j))
  }

  lemma SettledKidsStay(cache: map<Addr, Val>, s0: seq<Obj>, t: seq<Obj>, u: seq<Obj>, r: nat, i: nat)
    requires Ready(cache, s0) && Progress(cache, s0, t, u) && SettledKids(cache, s0, t, r, i)
    ensures SettledKids(cache, s0, u, r, i)
  {
    hide Ready;
    hide Progress;
    hide SettledUnder;
    forall j | 0 <= j < i && HasKid(s0, r, j) ensures SettledUnder(cache, s0, u, Kid(s0, r, j)) {
      SettledUnderStays(cache, s0, t, u, Kid(s0, r, j));
    }
  }

  /** A component that is a type object stays the same; a placeholder has nothing inside. */
  lemma KidValue(cache: map<Addr, Val>, s0: seq<Obj>, t: seq<Obj>, r: nat, i: nat)
    requires Ready(cache, s0) && Progress(cache, s0, s0, t) && HasKid(s0, r, i)
    ensures r < |t| && i < |Kids(t[r])|
    ensures Kids(t[r])[i] == Kids(s0[r])[i] || s0[Kid(s0, r, i)].Backref?
  {
    SameKids(s0, t, r);
    assert ProgressAt(cache, s0, s0, t, r, i);
  }

  lemma LeafSettled(cache: map<Addr, Val>, s0: seq<Obj>, t: seq<Obj>, q: nat)
    requires q < |s0| && s0[q].Backref?
    ensures SettledUnder(cache, s0, t, q)
  {
    forall h | Under(s0, q, h) ensures h == q {
      assert forall i: nat :: !HasKid(s0, q, i);
    }
  }

  /** All of `r` is settled once its components and the objects inside them are. */
  lemma RootSettled(cache: map<Addr, Val>, s0: seq<Obj>, t: seq<Obj>, r: nat)
    requires r < |s0| && SettledAt(cache, s0, t, r) && SettledKids(cache, s0, t, r, |Kids(s0[r])|)
    ensures SettledUnder(cache, s0, t, r)
  {
    forall h | Under(s0, r, h) ensures SettledAt(cache, s0, t, h) {
      if h != r {
        OpenKid(s0, r, h);
        var j :| HasKid(s0, r, j) && Under(s0, Kid(s0, r, j), h);
        assert SettledUnder(cache, s0, t, Kid(s0, r, j));
      }
    }
  }

  /** A visit that ended settles every object stored inside the one visited. */
  lemma {:induction false} Visits(cache: map<Addr, Val>, s0: seq<Obj>, s: seq<Obj>, q: nat, depth: nat)
    requires Ready(cache, s0) && Progress(cache, s0, s0, s) && q < |s0|
    ensures var out := Remove(cache, s, Ref(q), depth);
            out.Done? ==> SettledUnder(cache, s0, out.store, q)
    decreases q, 2, 0
  {
    ProgressLayout(cache, s0, s0, s);
    SameKids(s0, s, q);
    var out := Remove(cache, s, Ref(q), depth);
    if out.Done? {
      match s0[q]
      case Backref(_) => LeafSettled(cache, s0, out.store, q);
      case MapO(_, _) => VisitsMap(cache, s0, s, q, depth);
      case Ty(_, _) =>
        var rest := RemoveAll(cache, s, s[q].comps, depth - 1);
        assert s[q].comps[0..] == s[q].comps;
        forall j: nat | HasKid(s0, q, j)
          ensures j < |s[q].comps| && (s[q].comps[j] == Kids(s0[q])[j] || s0[Kid(s0, q, j)].Backref?)
        {
          KidValue(cache, s0, s, q, j);
        }
        VisitsAll(cache, s0, s, s[q].comps, q, 0, depth - 1);
        WrittenList(cache, s0, s, rest.store, q, rest.vs);
    }
  }

  /** The visit of a list ends with the write of the final values. */
  lemma WrittenList(cache: map<Addr, Val>, s0: seq<Obj>, s: seq<Obj>, t: seq<Obj>, r: nat, vs: seq<Val>)
    requires Ready(cache, s0) && Progress(cache, s0, s0, s) && Progress(cache, s0, s0, t) && r < |s0| && s0[r].Ty?
    requires Progress(cache, s0, s, t)
    requires r < |s| && s[r].Ty? && |vs| == |s[r].comps|
    requires forall i | 0 <= i < |vs| :: vs[i] == Resolve(cache, s0, s[r].comps[i])
    requires SettledKids(cache, s0, t, r, |Kids(s0[r])|)
    ensures SettledUnder(cache, s0, SetComps(t, r, vs), r)
  {
    var u := SetComps(t, r, vs);
    SameKids(s0, s, r);
    SameKids(s0, t, r);
    ListWritten(cache, s0, s, t, r, vs);
    assert Progress(cache, s0, t, u) by {
      ListProgress(cache, s0, s, t, r, vs);
    }
    SettledKidsStay(cache, s0, t, u, r, |Kids(s0[r])|);
    forall k: nat | HasKid(s0, r, k) ensures Settled(cache, s0, u, r, k) {
      assert ProgressAt(cache, s0, s0, s, r, k);
      ResolveOnce(cache, s0, Kids(s0[r])[k]);
    }
    RootSettled(cache, s0, u, r);
  }

  lemma ListProgress(cache: map<Addr, Val>, s0: seq<Obj>, s: seq<Obj>, t: seq<Obj>, r: nat, vs: seq<Val>)
    requires Ready(cache, s0) && Progress(cache, s0, s, t) && r < |s0|
    requires r < |s| && s[r].Ty? && |vs| == |s[r].comps|
    requires forall i | 0 <= i < |vs| :: vs[i] == Resolve(cache, s0, s[r].comps[i])
    ensures Progress(cache, s0, t, SetComps(t, r, vs))
  {
    ProgressLayout(cache, s0, s, t);
    SameKids(s0, s, r);
    SameKids(s0, t, r);
    ProgressNone(cache, s0, t);
    forall i | 0 <= i < |vs| ensures vs[i] == Resolve(cache, s0, Kids(t[r])[i]) {
      assert ProgressAt(cache, s0, s, t, r, i);
      ResolveOnce(cache, s0, s[r].comps[i]);
    }
    WriteProgress(cache, s0, t, t, r, t[r].(comps := vs));
  }

  /** The components of `q` from the `i`-th on. */
  lemma {:induction false} VisitsAll(cache: map<Addr, Val>, s0: seq<Obj>, t: seq<Obj>, comps: seq<Val>, q: nat, i: nat, depth: nat)
    requires Ready(cache, s0) && Progress(cache, s0, s0, t) && q < |s0|
    requires |comps| == |Kids(s0[q])| && i <= |comps|
    requires forall j: nat | HasKid(s0, q, j) :: j < |comps| && (comps[j] == Kids(s0[q])[j] || s0[Kid(s0, q, j)].Backref?)
    requires SettledKids(cache, s0, t, q, i)
    ensures var out := RemoveAll(cache, t, comps[i..], depth);
            out.DoneAll? ==> Progress(cache, s0, s0, out.store) && Progress(cache, s0, t, out.store)
                             && SettledKids(cache, s0, out.store, q, |comps|)
                             && forall j | 0 <= j < |out.vs| :: out.vs[j] == Resolve(cache, s0, comps[i..][j])
    decreases q, 1, |comps| - i
  {
    ProgressLayout(cache, s0, s0, t);
    RemoveAllProgress(cache, s0, t, comps[i..], depth);
    var out := RemoveAll(cache, t, comps[i..], depth);
    if out.DoneAll? {
      ProgressTransitive(cache, s0, s0, t, out.store);
      if i < |comps| {
        assert comps[i..][0] == comps[i] && comps[i..][1..] == comps[i + 1..];
        var first := Remove(cache, t, comps[i], depth);
        RemoveProgress(cache, s0, t, comps[i], depth);
        ProgressTransitive(cache, s0, s0, t, first.store);
        KidVisited(cache, s0, t, comps[i], q, i, depth);
        VisitsAll(cache, s0, first.store, comps, q, i + 1, depth);
      }
    }
  }

  lemma {:induction false} KidVisited(cache: map<Addr, Val>, s0: seq<Obj>, t: seq<Obj>, v: Val, q: nat, i: nat, depth: nat)
    requires Ready(cache, s0) && Progress(cache, s0, s0, t) && q < |s0|
    requires HasKid(s0, q, i) ==> v == Kids(s0[q])[i] || s0[Kid(s0, q, i)].Backref?
    requires SettledKids(cache, s0, t, q, i) && Remove(cache, t, v, depth).Done?
    ensures SettledKids(cache, s0, Remove(cache, t, v, depth).store, q, i + 1)
    decreases q, 0, 0
  {
    var u := Remove(cache, t, v, depth).store;
    ProgressLayout(cache, s0, s0, t);
    RemoveProgress(cache, s0, t, v, depth);
    SettledKidsStay(cache, s0, t, u, q, i);
    if HasKid(s0, q, i) {
      if s0[Kid(s0, q, i)].Backref? {
        LeafSettled(cache, s0, u, Kid(s0, q, i));
      } else {
        Visits(cache, s0, t, Kid(s0, q, i), depth);
      }
    }
  }

  lemma {:induction false} VisitsMap(cache: map<Addr, Val>, s0: seq<Obj>, s: seq<Obj>, q: nat, depth: nat)
    requires Ready(cache, s0) && Progress(cache, s0, s0, s) && q < |s0| && s0[q].MapO?
    requires Remove(cache, s, Ref(q), depth).Done?
    ensures SettledUnder(cache, s0, Remove(cache, s, Ref(q), depth).store, q)
    decreases q, 1, 0
  {
    ProgressLayout(cache, s0, s0, s);
    SameKids(s0, s, q);
    assert Kids(s0[q]) == [s0[q].keyType, s0[q].valType] && Kids(s[q]) == [s[q].keyType, s[q].valType];
    MapParts(cache, s0, s, q, depth);
    var first := Remove(cache, s, s[q].keyType, depth - 1);
    var s1 := SetKey(first.store, q, first.v);
    var second := Remove(cache, s1, GetVal(s1, q), depth - 1);
    var out := SetVal(second.store, q, second.v);
    if HasKid(s0, q, 0) {
      KidValue(cache, s0, s, q, 0);
    }
    KidVisited(cache, s0, s, s[q].keyType, q, 0, depth - 1);
    SettledKidsStay(cache, s0, first.store, s1, q, 1);
    if HasKid(s0, q, 1) {
      KidValue(cache, s0, s1, q, 1);
    }
    KidVisited(cache, s0, s1, GetVal(s1, q), q, 1, depth - 1);
    SettledKidsStay(cache, s0, second.store, out, q, 2);
    RootSettled(cache, s0, out, q);
  }

  /** The stages of a map's visit that ended, and what they wrote. */
  lemma MapParts(cache: map<Addr, Val>, s0: seq<Obj>, s: seq<Obj>, q: nat, depth: nat)
    requires Ready(cache, s0) && Progress(cache, s0, s0, s) && q < |s0| && q < |s| && s[q].MapO? && s0[q].MapO?
    requires Remove(cache, s, Ref(q), depth).Done?
    ensures depth > 0
    ensures var first := Remove(cache, s, s[q].keyType, depth - 1);
            first.Done? &&
            var s1 := SetKey(first.store, q, first.v);
            var second := Remove(cache, s1, GetVal(s1, q), depth - 1);
            second.Done? &&
            var out := SetVal(second.store, q, second.v);
            && Remove(cache, s, Ref(q), depth) == Done(Ref(q), out)
            && q < |s1| && s1[q].MapO?
            && Progress(cache, s0, first.store, s1) && Progress(cache, s0, s0, s1)
            && Progress(cache, s0, second.store, out)
            && SettledAt(cache, s0, out, q)
  {
    ProgressLayout(cache, s0, s0, s);
    var first := Remove(cache, s, s[q].keyType, depth - 1);
    var s1 := SetKey(first.store, q, first.v);
    var second := Remove(cache, s1, GetVal(s1, q), depth - 1);
    var out := SetVal(second.store, q, second.v);
    RemoveProgress(cache, s0, s, s[q].keyType, depth - 1);
    KeySettles(cache, s0, s, first.store, q, first.v);
    ProgressLayout(cache, s0, s0, s1);
    RemoveProgress(cache, s0, s1, GetVal(s1, q), depth - 1);
    ValSettles(cache, s0, s1, second.store, q, second.v);
  }

  lemma KeySettles(cache: map<Addr, Val>, s0: seq<Obj>, s: seq<Obj>, t: seq<Obj>, q: nat, key: Val)
    requires Ready(cache, s0) && Progress(cache, s0, s0, s) && Progress(cache, s0, s, t) && q < |s0| && s0[q].MapO?
    requires q < |s| && s[q].MapO? && key == Resolve(cache, s0, s[q].keyType)
    ensures var u := SetKey(t, q, key);
            Progress(cache, s0, t, u) && Progress(cache, s0, s0, u) && q < |u| && u[q].MapO? && Settled(cache, s0, u, q, 0)
  {
    ProgressLayout(cache, s0, s, t);
    SameKids(s0, s, q);
    SameKids(s0, t, q);
    var u := SetKey(t, q, key);
    assert Kids(s[q]) == [s[q].keyType, s[q].valType] && Kids(t[q]) == [t[q].keyType, t[q].valType] && Kids(s0[q]) == [s0[q].keyType, s0[q].valType];
    assert ProgressAt(cache, s0, s, t, q, 0) && ProgressAt(cache, s0, s0, s, q, 0);
    ResolveOnce(cache, s0, s[q].keyType);
    ResolveOnce(cache, s0, s0[q].keyType);
    ProgressNone(cache, s0, t);
    WriteProgress(cache, s0, t, t, q, t[q].(keyType := key));
    ProgressTransitive(cache, s0, s0, s, t);
    ProgressTransitive(cache, s0, s0, t, u);
  }

  lemma ValSettles(cache: map<Addr, Val>, s0: seq<Obj>, s: seq<Obj>, t: seq<Obj>, q: nat, val: Val)
    requires Ready(cache, s0) && Progress(cache, s0, s0, s) && Progress(cache, s0, s, t) && q < |s0| && s0[q].MapO?
    requires q < |s| && s[q].MapO? && val == Resolve(cache, s0, s[q].valType) && Settled(cache, s0, s, q, 0)
    ensures var u := SetVal(t, q, val);
            Progress(cache, s0, t, u) && SettledAt(cache, s0, u, q)
  {
    ProgressLayout(cache, s0, s, t);
    SameKids(s0, s, q);
    SameKids(s0, t, q);
    var u := SetVal(t, q, val);
    assert Kids(s[q]) == [s[q].keyType, s[q].valType] && Kids(t[q]) == [t[q].keyType, t[q].valType] && Kids(s0[q]) == [s0[q].keyType, s0[q].valType];
    assert ProgressAt(cache, s0, s, t, q, 0) && ProgressAt(cache, s0, s, t, q, 1) && ProgressAt(cache, s0, s0, s, q, 1);
    ResolveOnce(cache, s0, s0[q].keyType);
    ResolveOnce(cache, s0, s[q].valType);
    ResolveOnce(cache, s0, s0[q].valType);
    ProgressNone(cache, s0, t);
    WriteProgress(cache, s0, t, t, q, t[q].(valType := val));
    assert Kids(u[q]) == [t[q].keyType, val];
    forall k: nat | HasKid(s0, q, k) ensures Settled(cache, s0, u, q, k) {
      assert k == 0 || k == 1;
    }
  }
}
