/**
  When the in-place replacement does not end: an open object stored in two
  places is entered again after its cycle was closed.
 */
module GoKnotLoops {
  import opened GoDecode
  import opened GoDecodeProofs
  import opened GoUnfold
  import opened GoKnot

  /** From `s` to `t` some placeholder references were replaced and nothing else. */
  ghost predicate Progress(cache: map<Addr, Val>, s0: seq<Obj>, s: seq<Obj>, t: seq<Obj>) {
    && SameLayout(s0, s) && SameLayout(s0, t)
    && forall x, i | 0 <= x < |s0| && 0 <= i < |Kids(s0[x])| :: ProgressAt(cache, s0, s, t, x, i)
  }

  ghost predicate ProgressAt(cache: map<Addr, Val>, s0: seq<Obj>, s: seq<Obj>, t: seq<Obj>, x: nat, i: nat)
    requires x < |s0| && i < |Kids(s0[x])| && SameLayout(s0, s) && SameLayout(s0, t)
  {
    SameKids(s0, s, x); SameKids(s0, t, x);
    Kids(t[x])[i] == Kids(s[x])[i] || Kids(t[x])[i] == Resolve(cache, s0, Kids(s[x])[i])
  }

  lemma SameKids(s: seq<Obj>, t: seq<Obj>, x: nat)
    requires SameLayout(s, t) && x < |s|
    ensures SameKind(s[x], t[x]) && |Kids(t[x])| == |Kids(s[x])|
  {
  }

  lemma ProgressTransitive(cache: map<Addr, Val>, s0: seq<Obj>, s: seq<Obj>, t: seq<Obj>, u: seq<Obj>)
    requires Ready(cache, s0) && Progress(cache, s0, s, t) && Progress(cache, s0, t, u)
    ensures Progress(cache, s0, s, u)
  {
    forall x, i | 0 <= x < |s0| && 0 <= i < |Kids(s0[x])| ensures ProgressAt(cache, s0, s, u, x, i) {
      assert ProgressAt(cache, s0, s, t, x, i) && ProgressAt(cache, s0, t, u, x, i);
      SameKids(s0, s, x);
      ResolveOnce(cache, s0, Kids(s[x])[i]);
    }
  }

  lemma ResolveOnce(cache: map<Addr, Val>, s0: seq<Obj>, v: Val)
    requires Ready(cache, s0)
    ensures Resolve(cache, s0, Resolve(cache, s0, v)) == Resolve(cache, s0, v)
  {
  }

  lemma WriteProgress(cache: map<Addr, Val>, s0: seq<Obj>, s: seq<Obj>, t: seq<Obj>, x: nat, o: Obj)
    requires Progress(cache, s0, s, t) && x < |s0|
    requires SameKind(t[x], o) && |Kids(s[x])| == |Kids(o)| == |Kids(t[x])|
    requires forall i | 0 <= i < |Kids(o)| ::
               Kids(o)[i] == Kids(t[x])[i] || Kids(o)[i] == Resolve(cache, s0, Kids(s[x])[i])
    ensures Progress(cache, s0, s, t[x := o])
  {
    var u := t[x := o];
    forall y | 0 <= y < |s0| ensures SameKind(s0[y], u[y]) {
      assert SameKind(s0[y], t[y]);
    }
    forall y, i | 0 <= y < |s0| && 0 <= i < |Kids(s0[y])| ensures ProgressAt(cache, s0, s, u, y, i) {
      assert ProgressAt(cache, s0, s, t, y, i);
      SameKids(s0, u, y);
    }
  }

  lemma ProgressNone(cache: map<Addr, Val>, s0: seq<Obj>, s: seq<Obj>)
    requires SameLayout(s0, s)
    ensures Progress(cache, s0, s, s)
  {
    forall x, i | 0 <= x < |s0| && 0 <= i < |Kids(s0[x])| ensures ProgressAt(cache, s0, s, s, x, i) {
    }
  }

  lemma ProgressLayout(cache: map<Addr, Val>, s0: seq<Obj>, s: seq<Obj>, t: seq<Obj>)
    requires Progress(cache, s0, s, t)
    ensures SameLayout(s0, t)
  {
  }

  lemma {:induction false} RemoveProgress(cache: map<Addr, Val>, s0: seq<Obj>, s: seq<Obj>, v: Val, depth: nat)
    requires Ready(cache, s0) && SameLayout(s0, s)
    ensures var out := Remove(cache, s, v, depth);
            out.Done? ==> Progress(cache, s0, s, out.store) && out.v == Resolve(cache, s0, v)
    decreases depth, 0
  {
    ProgressNone(cache, s0, s);
    if v.Ref? && v.r < |s| && depth > 0 {
      SameKids(s0, s, v.r);
      hide Progress;
      hide Ready;
      hide SameLayout;
      match s[v.r]
      case Backref(_) =>
      case MapO(k, _) => RemoveMapProgress(cache, s0, s, v.r, depth);
      case Ty(_, comps) =>
        RemoveAllProgress(cache, s0, s, comps, depth - 1);
        var rest := RemoveAll(cache, s, comps, depth - 1);
        if rest.DoneAll? {
          ListWritten(cache, s0, s, rest.store, v.r, rest.vs);
        }
    }
  }

  /** The one write to any other object. */
  lemma ListWritten(cache: map<Addr, Val>, s0: seq<Obj>, s: seq<Obj>, t: seq<Obj>, r: nat, vs: seq<Val>)
    requires Progress(cache, s0, s, t) && r < |s0| && s[r].Ty? && |vs| == |s[r].comps|
    requires forall i | 0 <= i < |vs| :: vs[i] == Resolve(cache, s0, s[r].comps[i])
    ensures r < |s| && r < |t| && t[r].Ty?
    ensures Progress(cache, s0, s, SetComps(t, r, vs))
  {
    SameKids(s0, s, r);
    SameKids(s0, t, r);
    WriteProgress(cache, s0, s, t, r, t[r].(comps := vs));
  }

  /** The two writes to a map object. */
  lemma KeyWritten(cache: map<Addr, Val>, s0: seq<Obj>, s: seq<Obj>, t: seq<Obj>, r: nat, key: Val)
    requires Progress(cache, s0, s, t) && r < |s0| && s[r].MapO? && key == Resolve(cache, s0, s[r].keyType)
    ensures r < |s| && r < |t| && t[r].MapO?
    ensures var u := SetKey(t, r, key);
            && Progress(cache, s0, s, u)
            && (GetVal(u, r) == s[r].valType || GetVal(u, r) == Resolve(cache, s0, s[r].valType))
  {
    SameKids(s0, s, r);
    SameKids(s0, t, r);
    assert Kids(s[r]) == [s[r].keyType, s[r].valType] && Kids(t[r]) == [t[r].keyType, t[r].valType];
    assert ProgressAt(cache, s0, s, t, r, 1);
    WriteProgress(cache, s0, s, t, r, t[r].(keyType := key));
  }

  lemma ValWritten(cache: map<Addr, Val>, s0: seq<Obj>, s: seq<Obj>, t: seq<Obj>, r: nat, val: Val)
    requires Progress(cache, s0, s, t) && r < |s0| && s[r].MapO? && val == Resolve(cache, s0, s[r].valType)
    ensures r < |s| && r < |t| && t[r].MapO?
    ensures Progress(cache, s0, s, SetVal(t, r, val))
  {
    SameKids(s0, s, r);
    SameKids(s0, t, r);
    assert Kids(s[r]) == [s[r].keyType, s[r].valType] && Kids(t[r]) == [t[r].keyType, t[r].valType];
    WriteProgress(cache, s0, s, t, r, t[r].(valType := val));
  }

  lemma {:induction false} RemoveMapProgress(cache: map<Addr, Val>, s0: seq<Obj>, s: seq<Obj>, r: nat, depth: nat)
    requires Ready(cache, s0) && SameLayout(s0, s) && r < |s| && s[r].MapO? && depth > 0
    ensures var out := Remove(cache, s, Ref(r), depth);
            out.Done? ==> Progress(cache, s0, s, out.store)
    decreases depth - 1, 1
  {
    hide Progress;
    hide Ready;
    RemoveProgress(cache, s0, s, s[r].keyType, depth - 1);
    var first := Remove(cache, s, s[r].keyType, depth - 1);
    if first.Done? {
      KeyWritten(cache, s0, s, first.store, r, first.v);
      var store1 := SetKey(first.store, r, first.v);
      ProgressLayout(cache, s0, s, store1);
      RemoveProgress(cache, s0, store1, GetVal(store1, r), depth - 1);
      var second := Remove(cache, store1, GetVal(store1, r), depth - 1);
      if second.Done? {
        ProgressTransitive(cache, s0, s, store1, second.store);
        ResolveOnce(cache, s0, s[r].valType);
        ValWritten(cache, s0, s, second.store, r, second.v);
      }
    }
  }

  lemma {:induction false} RemoveAllProgress(cache: map<Addr, Val>, s0: seq<Obj>, s: seq<Obj>, vs: seq<Val>, depth: nat)
    requires Ready(cache, s0) && SameLayout(s0, s)
    ensures var out := RemoveAll(cache, s, vs, depth);
            out.DoneAll? ==> Progress(cache, s0, s, out.store) && forall i | 0 <= i < |vs| :: out.vs[i] == Resolve(cache, s0, vs[i])
    decreases depth, 1 + |vs|
  {
    if vs == [] {
      ProgressNone(cache, s0, s);
    } else {
      RemoveProgress(cache, s0, s, vs[0], depth);
      var first := Remove(cache, s, vs[0], depth);
      if first.Done? {
        RemoveAllProgress(cache, s0, first.store, vs[1..], depth);
        var rest := RemoveAll(cache, first.store, vs[1..], depth);
        if rest.DoneAll? {
          ProgressTransitive(cache, s0, s, first.store, rest.store);
        }
      }
    }
  }

  /** Of a decoded graph nothing is missing: the only exception is the recursion limit. */
  lemma {:induction false} RaisesLimit(cache: map<Addr, Val>, s0: seq<Obj>, s: seq<Obj>, v: Val, depth: nat)
    requires Ready(cache, s0) && SameLayout(s0, s)
    ensures var out := Remove(cache, s, v, depth); out.Raised? ==> out.error == RecursionLimit
    decreases depth, 0
  {
    RemoveOne(cache, s, v, depth);
    if v.Ref? && v.r < |s| && depth > 0 {
      SameKids(s0, s, v.r);
      hide Remove;
      match s[v.r]
      case Backref(_) =>
      case MapO(k, _) =>
        hide Ready;
        hide SameLayout;
        RaisesLimit(cache, s0, s, k, depth - 1);
        RaisesLimitInVal(cache, s0, s, v.r, depth);
      case Ty(_, comps) =>
        hide Ready;
        hide SameLayout;
        RaisesLimitAll(cache, s0, s, comps, depth - 1);
    }
  }

  lemma {:induction false} RaisesLimitInVal(cache: map<Addr, Val>, s0: seq<Obj>, s: seq<Obj>, r: nat, depth: nat)
    requires Ready(cache, s0) && SameLayout(s0, s) && r < |s| && s[r].MapO? && depth > 0
    ensures var first := Remove(cache, s, s[r].keyType, depth - 1);
            first.Done? ==>
              var store1 := SetKey(first.store, r, first.v);
              var second := Remove(cache, store1, GetVal(store1, r), depth - 1);
              second.Raised? ==> second.error == RecursionLimit
    decreases depth - 1, 1
  {
    hide Ready;
    hide Remove;
    var first := Remove(cache, s, s[r].keyType, depth - 1);
    if first.Done? {
      RemoveProgress(cache, s0, s, s[r].keyType, depth - 1);
      KeyWritten(cache, s0, s, first.store, r, first.v);
      var store1 := SetKey(first.store, r, first.v);
      ProgressLayout(cache, s0, s, store1);
      RaisesLimit(cache, s0, store1, GetVal(store1, r), depth - 1);
    }
  }

  lemma {:induction false} RaisesLimitAll(cache: map<Addr, Val>, s0: seq<Obj>, s: seq<Obj>, vs: seq<Val>, depth: nat)
    requires Ready(cache, s0) && SameLayout(s0, s)
    ensures var out := RemoveAll(cache, s, vs, depth); out.RaisedAll? ==> out.error == RecursionLimit
    decreases depth, 1 + |vs|
  {
    hide Ready;
    hide SameLayout;
    hide Remove;
    if vs != [] {
      RaisesLimit(cache, s0, s, vs[0], depth);
      var first := Remove(cache, s, vs[0], depth);
      if first.Done? {
        RemoveProgress(cache, s0, s, vs[0], depth);
        ProgressLayout(cache, s0, s, first.store);
        RaisesLimitAll(cache, s0, first.store, vs[1..], depth);
      }
    }
  }

  // ----- A cycle of types is never left -----

  /** Component `j` of `x` is the type object `y`: a visit of `x` goes on to `y`. */
  ghost predicate Step(s0: seq<Obj>, s: seq<Obj>, x: nat, j: nat, y: nat) {
    x < |s| && j < |Kids(s[x])| && Kids(s[x])[j] == Ref(y) && IsType(s0, Ref(y))
  }

  /** From `x` one comes to `y` in at least one and at most `n` steps. */
  ghost predicate Leads(s0: seq<Obj>, s: seq<Obj>, x: nat, y: nat, n: nat)
    decreases n
  {
    n > 0 && exists j: nat, z: nat :: Step(s0, s, x, j, z) && (z == y || Leads(s0, s, z, y, n - 1))
  }

  /** From `x` one comes to an object that leads back to itself. */
  ghost predicate Trapped(s0: seq<Obj>, s: seq<Obj>, x: nat) {
    exists y: nat, n: nat, m: nat :: (x == y || Leads(s0, s, x, y, n)) && Leads(s0, s, y, y, m)
  }

  lemma StepStays(cache: map<Addr, Val>, s0: seq<Obj>, s: seq<Obj>, t: seq<Obj>, x: nat, j: nat, y: nat)
    requires Progress(cache, s0, s, t) && Step(s0, s, x, j, y)
    ensures Step(s0, t, x, j, y)
  {
    SameKids(s0, s, x);
    SameKids(s0, t, x);
    assert ProgressAt(cache, s0, s, t, x, j);
  }

  lemma {:induction false} LeadsStays(cache: map<Addr, Val>, s0: seq<Obj>, s: seq<Obj>, t: seq<Obj>, x: nat, y: nat, n: nat)
    requires Progress(cache, s0, s, t) && Leads(s0, s, x, y, n)
    ensures Leads(s0, t, x, y, n)
    decreases n
  {
    hide Progress;
    hide Step;
    var j: nat, z: nat :| Step(s0, s, x, j, z) && (z == y || Leads(s0, s, z, y, n - 1));
    StepStays(cache, s0, s, t, x, j, z);
    if z != y {
      LeadsStays(cache, s0, s, t, z, y, n - 1);
    }
  }

  lemma TrappedStays(cache: map<Addr, Val>, s0: seq<Obj>, s: seq<Obj>, t: seq<Obj>, x: nat)
    requires Progress(cache, s0, s, t) && Trapped(s0, s, x)
    ensures Trapped(s0, t, x)
  {
    hide Progress;
    hide Leads;
    var y: nat, n: nat, m: nat :| (x == y || Leads(s0, s, x, y, n)) && Leads(s0, s, y, y, m);
    LeadsStays(cache, s0, s, t, y, y, m);
    if x != y {
      LeadsStays(cache, s0, s, t, x, y, n);
    }
  }

  lemma TrappedStep(s0: seq<Obj>, s: seq<Obj>, x: nat) returns (j: nat, z: nat)
    requires Trapped(s0, s, x)
    ensures Step(s0, s, x, j, z) && Trapped(s0, s, z)
  {
    hide Step;
    var y: nat, n: nat, m: nat :| (x == y || Leads(s0, s, x, y, n)) && Leads(s0, s, y, y, m);
    if x == y {
      j, z :| Step(s0, s, x, j, z) && (z == y || Leads(s0, s, z, y, m - 1));
    } else {
      j, z :| Step(s0, s, x, j, z) && (z == y || Leads(s0, s, z, y, n - 1));
    }
  }

  /** A visit of a trapped object exceeds every recursion limit. */
  lemma {:induction false} Diverges(cache: map<Addr, Val>, s0: seq<Obj>, s: seq<Obj>, x: nat, depth: nat)
    requires Ready(cache, s0) && SameLayout(s0, s) && Trapped(s0, s, x)
    requires IsType(s0, Ref(x))
    ensures Remove(cache, s, Ref(x), depth).Raised?
    decreases depth, 0
  {
    var j, y := TrappedStep(s0, s, x);
    SameKids(s0, s, x);
    hide Ready;
    hide SameLayout;
    hide Trapped;
    if depth > 0 {
      if s[x].Ty? {
        DivergesAll(cache, s0, s, s[x].comps, j, y, depth - 1);
      } else if j == 0 {
        Diverges(cache, s0, s, y, depth - 1);
      } else {
        DivergesInVal(cache, s0, s, x, y, depth);
      }
    }
  }

  lemma {:induction false} DivergesInVal(cache: map<Addr, Val>, s0: seq<Obj>, s: seq<Obj>, x: nat, y: nat, depth: nat)
    requires Ready(cache, s0) && SameLayout(s0, s) && Trapped(s0, s, y)
    requires Step(s0, s, x, 1, y) && s[x].MapO? && depth > 0
    ensures Remove(cache, s, Ref(x), depth).Raised?
    decreases depth - 1, 1
  {
    hide Ready;
    hide Progress;
    hide Trapped;
    var first := Remove(cache, s, s[x].keyType, depth - 1);
    if first.Done? {
      RemoveProgress(cache, s0, s, s[x].keyType, depth - 1);
      KeyWritten(cache, s0, s, first.store, x, first.v);
      var store1 := SetKey(first.store, x, first.v);
      ProgressLayout(cache, s0, s, store1);
      TrappedStays(cache, s0, s, store1, y);
      Diverges(cache, s0, store1, y, depth - 1);
    }
  }

  lemma {:induction false} DivergesAll(cache: map<Addr, Val>, s0: seq<Obj>, s: seq<Obj>, vs: seq<Val>, j: nat, y: nat, depth: nat)
    requires Ready(cache, s0) && SameLayout(s0, s) && Trapped(s0, s, y)
    requires j < |vs| && vs[j] == Ref(y) && IsType(s0, Ref(y))
    ensures RemoveAll(cache, s, vs, depth).RaisedAll?
    decreases depth, 1 + |vs|
  {
    hide Ready;
    hide Progress;
    hide Trapped;
    var first := Remove(cache, s, vs[0], depth);
    if j == 0 {
      Diverges(cache, s0, s, y, depth);
    } else if first.Done? {
      RemoveProgress(cache, s0, s, vs[0], depth);
      ProgressLayout(cache, s0, s, first.store);
      TrappedStays(cache, s0, s, first.store, y);
      DivergesAll(cache, s0, first.store, vs[1..], j - 1, y, depth);
    }
  }
}
