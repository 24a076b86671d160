/**
  Exact conditions for the in-place replacement to end, and how deep it then
  recurses.
 */
module GoKnotExact {
  import opened GoDecode
  import opened GoDecodeProofs
  import opened GoUnfold
  import opened GoKnot
  import opened GoKnotLoops
  import opened GoKnotEnds

  // ----- Placeholders that close a cycle -----

  /** Placeholder `k` of `h` stands for an object that `h` is stored in. */
  ghost predicate ClosesAt(cache: map<Addr, Val>, s0: seq<Obj>, h: nat, k: nat)
    requires HasKid(s0, h, k)
  {
    var w := Resolve(cache, s0, Kids(s0[h])[k]);
    IsType(s0, w) && Under(s0, w.r, h)
  }

  /** Every placeholder inside `r` does. */
  ghost predicate Closes(cache: map<Addr, Val>, s0: seq<Obj>, r: nat) {
    forall h, k | Under(s0, r, h) && HasKid(s0, h, k) && s0[Kid(s0, h, k)].Backref? ::
      ClosesAt(cache, s0, h, k)
  }

  /** Some placeholder held by `h` does. */
  ghost predicate ClosingHolder(cache: map<Addr, Val>, s0: seq<Obj>, h: nat) {
    exists k: nat :: HasKid(s0, h, k) && s0[Kid(s0, h, k)].Backref? && ClosesAt(cache, s0, h, k)
  }

  /** Some placeholder inside `x` does. */
  ghost predicate Closing(cache: map<Addr, Val>, s0: seq<Obj>, x: nat) {
    exists h :: Under(s0, x, h) && ClosingHolder(cache, s0, h)
  }

  ghost predicate Apart(cache: map<Addr, Val>, s0: seq<Obj>, r: nat, i: nat, j: nat)
    requires HasKid(s0, r, i) && HasKid(s0, r, j)
  {
    forall x :: Under(s0, Kid(s0, r, i), x) && Under(s0, Kid(s0, r, j), x) ==> !Closing(cache, s0, x)
  }

  /** Every object that contains a closing placeholder is stored in one place inside `r`. */
  ghost predicate OneClosingPath(cache: map<Addr, Val>, s0: seq<Obj>, r: nat)
    decreases r
  {
    && (forall i | HasKid(s0, r, i) :: OneClosingPath(cache, s0, Kid(s0, r, i)))
    && (forall i, j | HasKid(s0, r, i) && HasKid(s0, r, j) && i < j :: Apart(cache, s0, r, i, j))
  }

  lemma {:induction false} UnderLeads(cache: map<Addr, Val>, s0: seq<Obj>, t: seq<Obj>, x: nat, h: nat) returns (n: nat)
    requires Ready(cache, s0) && Progress(cache, s0, s0, t)
    requires Under(s0, x, h) && IsType(s0, Ref(h)) && x != h
    ensures Leads(s0, t, x, h, n)
    decreases x
  {
    var i: nat :| HasKid(s0, x, i) && Under(s0, Kid(s0, x, i), h);
    var q := Kid(s0, x, i);
    KidValue(cache, s0, t, x, i);
    LeafHolds(s0, q, h);
    hide Ready;
    hide Progress;
    hide Under;
    assert Step(s0, t, x, i, q);
    if q == h {
      n := 1;
    } else {
      n := UnderLeads(cache, s0, t, q, h);
      n := n + 1;
      assert Leads(s0, t, q, h, n - 1);
    }
  }

  /** A placeholder has nothing inside. */
  lemma LeafAlone(s0: seq<Obj>, q: nat)
    requires q < |s0| && s0[q].Backref?
    ensures forall h | Under(s0, q, h) :: h == q
    ensures forall i: nat :: !HasKid(s0, q, i)
  {
    assert forall i: nat :: !HasKid(s0, q, i);
  }

  lemma LeafHolds(s0: seq<Obj>, q: nat, h: nat)
    requires Under(s0, q, h) && IsType(s0, Ref(h))
    ensures IsType(s0, Ref(q))
  {
    if s0[q].Backref? {
      LeafAlone(s0, q);
    }
  }

  /** Once a closing placeholder was replaced, everything its holder is stored in is on a cycle. */
  lemma ClosedTraps(cache: map<Addr, Val>, s0: seq<Obj>, t: seq<Obj>, x: nat, h: nat)
    requires Ready(cache, s0) && Progress(cache, s0, s0, t)
    requires Under(s0, x, h) && ClosingHolder(cache, s0, h) && SettledAt(cache, s0, t, h)
    ensures Trapped(s0, t, x) && IsType(s0, Ref(x))
  {
    var k: nat :| HasKid(s0, h, k) && s0[Kid(s0, h, k)].Backref? && ClosesAt(cache, s0, h, k);
    var top := Resolve(cache, s0, Kids(s0[h])[k]).r;
    assert Settled(cache, s0, t, h, k);
    assert Step(s0, t, h, k, top);
    LeafHolds(s0, x, h);
    var m := 1;
    if top != h {
      var n := UnderLeads(cache, s0, t, top, h);
      m := n + 1;
      assert Leads(s0, t, top, h, m - 1);
    }
    hide Step;
    hide Ready;
    hide Progress;
    assert Leads(s0, t, h, h, m);
    if x != h {
      var n := UnderLeads(cache, s0, t, x, h);
      assert Leads(s0, t, x, h, n);
    }
  }

  /** Component `i` of `r` is at fault: by itself, or by sharing with an earlier one. */
  ghost predicate Faulty(cache: map<Addr, Val>, s0: seq<Obj>, r: nat, i: nat) {
    && HasKid(s0, r, i)
    && (!OneClosingPath(cache, s0, Kid(s0, r, i)) || exists j: nat :: j < i && HasKid(s0, r, j) && !Apart(cache, s0, r, j, i))
  }

  lemma FaultyKid(cache: map<Addr, Val>, s0: seq<Obj>, r: nat) returns (i: nat)
    requires r < |s0| && !OneClosingPath(cache, s0, r)
    ensures Faulty(cache, s0, r, i) && i < |Kids(s0[r])|
  {
    if !forall i | HasKid(s0, r, i) :: OneClosingPath(cache, s0, Kid(s0, r, i)) {
      i :| HasKid(s0, r, i) && !OneClosingPath(cache, s0, Kid(s0, r, i));
    } else {
      var j: nat;
      j, i :| HasKid(s0, r, j) && HasKid(s0, r, i) && j < i && !Apart(cache, s0, r, j, i);
    }
  }

  lemma FaultyIsType(cache: map<Addr, Val>, s0: seq<Obj>, r: nat, i: nat)
    requires Faulty(cache, s0, r, i)
    ensures IsType(s0, Ref(Kid(s0, r, i)))
  {
    if s0[Kid(s0, r, i)].Backref? {
      LeafAlone(s0, Kid(s0, r, i));
    }
  }

  lemma {:induction false} FaultyFails(cache: map<Addr, Val>, s0: seq<Obj>, t: seq<Obj>, r: nat, i: nat, depth: nat)
    requires Ready(cache, s0) && Progress(cache, s0, s0, t) && Faulty(cache, s0, r, i)
    requires SettledKids(cache, s0, t, r, i)
    ensures Remove(cache, t, Ref(Kid(s0, r, i)), depth).Raised?
    decreases r, 0, 0
  {
    var q := Kid(s0, r, i);
    FaultyIsType(cache, s0, r, i);
    hide Ready;
    hide Progress;
    if j: nat :| j < i && HasKid(s0, r, j) && !Apart(cache, s0, r, j, i) {
      var x :| Under(s0, Kid(s0, r, j), x) && Under(s0, q, x) && Closing(cache, s0, x);
      var h :| Under(s0, x, h) && ClosingHolder(cache, s0, h);
      UnderTransitive(s0, Kid(s0, r, j), x, h);
      UnderTransitive(s0, q, x, h);
      assert SettledUnder(cache, s0, t, Kid(s0, r, j));
      ClosedTraps(cache, s0, t, q, h);
      ProgressLayout(cache, s0, s0, t);
      Diverges(cache, s0, t, q, depth);
    } else {
      SharedNeverEnds(cache, s0, t, q, depth);
    }
  }

  /**
    If an object that contains a closing placeholder is stored in two places
    inside `r`, the traversal exceeds every recursion limit, from any state.
   */
  lemma {:induction false} SharedNeverEnds(cache: map<Addr, Val>, s0: seq<Obj>, s: seq<Obj>, r: nat, depth: nat)
    requires Ready(cache, s0) && Progress(cache, s0, s0, s) && r < |s0| && !OneClosingPath(cache, s0, r)
    ensures Remove(cache, s, Ref(r), depth).Raised?
    decreases r, 2, 0
  {
    hide *;
    var i := FaultyKid(cache, s0, r);
    FaultyHas(cache, s0, r, i);
    if depth == 0 {
      OutOfDepth(cache, s0, s, r);
    } else {
      match s0[r]
      case Backref(_) => LeafAlone(s0, r);
      case MapO(_, _) =>
        SameAt(cache, s0, s, r);
        SharedInMap(cache, s0, s, r, i, depth);
      case Ty(_, _) =>
        SameAt(cache, s0, s, r);
        NoneSettled(cache, s0, s, r);
        SharedInList(cache, s0, s, s[r].comps, r, 0, i, depth - 1);
        ListRaises(cache, s, r, depth);
    }
  }

  lemma OutOfDepth(cache: map<Addr, Val>, s0: seq<Obj>, s: seq<Obj>, r: nat)
    requires r < |s0| && Progress(cache, s0, s0, s)
    ensures Remove(cache, s, Ref(r), 0).Raised?
  {
  }

  lemma ListRaises(cache: map<Addr, Val>, s: seq<Obj>, r: nat, depth: nat)
    requires depth > 0 && r < |s| && s[r].Ty? && RemoveAll(cache, s, s[r].comps[0..], depth - 1).RaisedAll?
    ensures Remove(cache, s, Ref(r), depth).Raised?
  {
    hide RemoveAll;
    assert s[r].comps[0..] == s[r].comps;
  }

  /** An object while placeholders are being replaced. */
  lemma SameAt(cache: map<Addr, Val>, s0: seq<Obj>, s: seq<Obj>, r: nat)
    requires Ready(cache, s0) && Progress(cache, s0, s0, s) && r < |s0| && !s0[r].Backref?
    ensures r < |s| && s[r].MapO? == s0[r].MapO? && s[r].Ty? == s0[r].Ty? && |Kids(s[r])| == |Kids(s0[r])|
    ensures s[r].Ty? ==>
              |s[r].comps| == |Kids(s0[r])| &&
              forall j: nat | HasKid(s0, r, j) :: s[r].comps[j] == Kids(s0[r])[j] || s0[Kid(s0, r, j)].Backref?
  {
    ProgressLayout(cache, s0, s0, s);
    SameKids(s0, s, r);
    forall j: nat | HasKid(s0, r, j)
      ensures Kids(s[r])[j] == Kids(s0[r])[j] || s0[Kid(s0, r, j)].Backref?
    {
      KidValue(cache, s0, s, r, j);
    }
  }

  lemma {:induction false} SharedInList(cache: map<Addr, Val>, s0: seq<Obj>, t: seq<Obj>, comps: seq<Val>, r: nat, p: nat, i: nat, depth: nat)
    requires Ready(cache, s0) && Progress(cache, s0, s0, t) && r < |s0|
    requires Faulty(cache, s0, r, i) && p <= i < |Kids(s0[r])| == |comps|
    requires forall j: nat | HasKid(s0, r, j) :: comps[j] == Kids(s0[r])[j] || s0[Kid(s0, r, j)].Backref?
    requires SettledKids(cache, s0, t, r, p)
    ensures RemoveAll(cache, t, comps[p..], depth).RaisedAll?
    decreases r, 1, i - p
  {
    assert comps[p..][0] == comps[p] && comps[p..][1..] == comps[p + 1..];
    ProgressLayout(cache, s0, s0, t);
    if p == i {
      FaultyIsType(cache, s0, r, i);
      FaultyFails(cache, s0, t, r, i, depth);
    } else {
      var first := Remove(cache, t, comps[p], depth);
      if first.Done? {
        RemoveProgress(cache, s0, t, comps[p], depth);
        ProgressTransitive(cache, s0, s0, t, first.store);
        KidVisited(cache, s0, t, comps[p], r, p, depth);
        SharedInList(cache, s0, first.store, comps, r, p + 1, i, depth);
      }
    }
  }

  lemma {:induction false} SharedInMap(cache: map<Addr, Val>, s0: seq<Obj>, s: seq<Obj>, r: nat, i: nat, depth: nat)
    requires Ready(cache, s0) && Progress(cache, s0, s0, s) && r < |s0| && s0[r].MapO? && depth > 0
    requires r < |s| && s[r].MapO?
    requires Faulty(cache, s0, r, i) && i < |Kids(s0[r])|
    ensures Remove(cache, s, Ref(r), depth).Raised?
    decreases r, 1, 0
  {
    hide *;
    KidsOfMap(s0[r]);
    KidsOfMap(s[r]);
    MapStep(cache, s, r, depth);
    FaultyIsType(cache, s0, r, i);
    FaultyHas(cache, s0, r, i);
    if i == 0 {
      KidValue(cache, s0, s, r, 0);
      NoneSettled(cache, s0, s, r);
      FaultyFails(cache, s0, s, r, 0, depth - 1);
    } else {
      var first := Remove(cache, s, s[r].keyType, depth - 1);
      if first.Done? {
        var s1 := SetKey(first.store, r, first.v);
        KeyVisited(cache, s0, s, r, depth - 1);
        FaultyFails(cache, s0, s1, r, 1, depth - 1);
      }
    }
  }

  lemma FaultyHas(cache: map<Addr, Val>, s0: seq<Obj>, r: nat, i: nat)
    requires Faulty(cache, s0, r, i)
    ensures HasKid(s0, r, i) && Ref(Kid(s0, r, i)) == Kids(s0[r])[i]
  {
  }

  lemma NoneSettled(cache: map<Addr, Val>, s0: seq<Obj>, t: seq<Obj>, r: nat)
    ensures SettledKids(cache, s0, t, r, 0)
  {
  }

  /** A map between the visits of its key and its value. */
  lemma KeyVisited(cache: map<Addr, Val>, s0: seq<Obj>, s: seq<Obj>, r: nat, depth: nat)
    requires r < |s0| && s0[r].MapO? && r < |s| && s[r].MapO?
    requires Ready(cache, s0) && Progress(cache, s0, s0, s)
    requires HasKid(s0, r, 1) && IsType(s0, Ref(Kid(s0, r, 1)))
    requires Remove(cache, s, s[r].keyType, depth).Done?
    ensures var first := Remove(cache, s, s[r].keyType, depth);
            var s1 := SetKey(first.store, r, first.v);
            Progress(cache, s0, s0, s1) && SettledKids(cache, s0, s1, r, 1) && GetVal(s1, r) == Ref(Kid(s0, r, 1))
  {
    hide Remove;
    hide Ready;
    hide Progress;
    hide SettledUnder;
    KidsOfMap(s0[r]);
    KidsOfMap(s[r]);
    ProgressLayout(cache, s0, s0, s);
    var first := Remove(cache, s, s[r].keyType, depth);
    var s1 := SetKey(first.store, r, first.v);
    if HasKid(s0, r, 0) {
      KidValue(cache, s0, s, r, 0);
    }
    KidVisited(cache, s0, s, s[r].keyType, r, 0, depth);
    RemoveProgress(cache, s0, s, s[r].keyType, depth);
    KeySettles(cache, s0, s, first.store, r, first.v);
    SettledKidsStay(cache, s0, first.store, s1, r, 1);
    KidValue(cache, s0, s1, r, 1);
  }

  // ----- When every placeholder closes a cycle -----

  lemma {:induction false} ClosesIsOpen(cache: map<Addr, Val>, s0: seq<Obj>, r: nat)
    requires r < |s0| && Closes(cache, s0, r) && !OnePath(s0, r)
    ensures !OneClosingPath(cache, s0, r)
    decreases r
  {
    if i: nat :| HasKid(s0, r, i) && !OnePath(s0, Kid(s0, r, i)) {
      var q := Kid(s0, r, i);
      assert Under(s0, q, q);
      forall h, k | Under(s0, q, h) && HasKid(s0, h, k) && s0[Kid(s0, h, k)].Backref? ensures ClosesAt(cache, s0, h, k) {
        assert Under(s0, r, h);
      }
      ClosesIsOpen(cache, s0, q);
    } else {
      var i: nat, j: nat :| HasKid(s0, r, i) && HasKid(s0, r, j) && i < j && !Disjoint(s0, r, i, j);
      var x :| OpenUnder(s0, Kid(s0, r, i), x) && OpenUnder(s0, Kid(s0, r, j), x);
      var h :| Under(s0, x, h) && Holder(s0, h);
      var k: nat :| HasKid(s0, h, k) && s0[Kid(s0, h, k)].Backref?;
      UnderTransitive(s0, Kid(s0, r, i), x, h);
      assert Under(s0, r, h);
      assert ClosesAt(cache, s0, h, k);
      assert Closing(cache, s0, x);
      assert !Apart(cache, s0, r, i, j);
    }
  }

  /**
    If every placeholder inside `r` stands for an object it is stored in, the
    traversal ends within some recursion limit exactly when every object that
    contains a placeholder is stored once.
   */
  lemma EndsExactlyOnOnePath(cache: map<Addr, Val>, s0: seq<Obj>, r: nat)
    requires Ready(cache, s0) && r < |s0| && Closes(cache, s0, r)
    ensures Ends(cache, s0, Ref(r)) <==> OnePath(s0, r)
  {
    EndsConditions(cache, s0, r);
    hide *;
    if !OnePath(s0, r) {
      ClosesIsOpen(cache, s0, r);
    }
  }

  // ----- How deep a traversal that ends recurses -----

  /** Everything on the call stack leads to `v`, if that is a type object. */
  ghost predicate StackLeads(s0: seq<Obj>, s: seq<Obj>, stack: set<nat>, v: Val) {
    && (forall y | y in stack :: IsType(s0, Ref(y)))
    && (IsType(s0, v) ==> forall y | y in stack :: LeadsTo(s0, s, y, v.r))
  }

  ghost predicate LeadsTo(s0: seq<Obj>, s: seq<Obj>, y: nat, x: nat) {
    exists n: nat :: Leads(s0, s, y, x, n)
  }

  lemma {:induction false} LeadsOn(s0: seq<Obj>, s: seq<Obj>, x: nat, y: nat, j: nat, z: nat, n: nat)
    requires Leads(s0, s, x, y, n) && Step(s0, s, y, j, z)
    ensures Leads(s0, s, x, z, n + 1)
    decreases n
  {
    hide Step;
    var i: nat, w: nat :| Step(s0, s, x, i, w) && (w == y || Leads(s0, s, w, y, n - 1));
    if w == y {
      assert Leads(s0, s, w, z, n);
    } else {
      LeadsOn(s0, s, w, y, j, z, n - 1);
      assert Leads(s0, s, w, z, n);
    }
  }

  lemma StackPush(cache: map<Addr, Val>, s0: seq<Obj>, s: seq<Obj>, t: seq<Obj>, stack: set<nat>, x: nat, j: nat, v: Val)
    requires Ready(cache, s0) && Progress(cache, s0, s, t)
    requires StackLeads(s0, s, stack, Ref(x)) && IsType(s0, Ref(x))
    requires x < |t| && j < |Kids(t[x])| && Kids(t[x])[j] == v
    ensures StackLeads(s0, t, stack + {x}, v)
  {
    hide Ready;
    hide Progress;
    if IsType(s0, v) {
      assert Step(s0, t, x, j, v.r);
      hide Step;
      assert Leads(s0, t, x, v.r, 1);
      forall y | y in stack ensures LeadsTo(s0, t, y, v.r) {
        assert LeadsTo(s0, s, y, x);
        var n: nat :| Leads(s0, s, y, x, n);
        LeadsStays(cache, s0, s, t, y, x, n);
        LeadsOn(s0, t, y, x, j, v.r, n);
      }
    }
  }

  function Below(n: nat): (r: set<nat>)
    ensures |r| == n && forall y: nat :: y in r <==> y < n
  {
    if n == 0 then {} else Below(n - 1) + {n - 1}
  }

  /** The stack holds different objects of the store, and not `x`. */
  lemma StackFits(s0: seq<Obj>, stack: set<nat>, x: nat)
    requires (forall y | y in stack :: IsType(s0, Ref(y))) && x < |s0| && x !in stack
    ensures |stack| < |s0|
  {
    var all := Below(|s0|);
    assert stack <= all - {x};
    SubsetSize(stack, all - {x});
  }

  lemma {:induction false} SubsetSize(a: set<nat>, b: set<nat>)
    requires a <= b
    ensures |a| <= |b|
    decreases |a|
  {
    if a != {} {
      var x :| x in a;
      SubsetSize(a - {x}, b - {x});
    }
  }

  /** An object that is entered again during its own visit is entered for ever. */
  lemma NoReentry(cache: map<Addr, Val>, s0: seq<Obj>, s: seq<Obj>, stack: set<nat>, x: nat, depth: nat)
    requires Ready(cache, s0) && SameLayout(s0, s) && StackLeads(s0, s, stack, Ref(x))
    requires Remove(cache, s, Ref(x), depth).Done?
    ensures x !in stack
  {
    if x in stack {
      var n: nat :| Leads(s0, s, x, x, n);
      assert Trapped(s0, s, x);
      Diverges(cache, s0, s, x, depth);
    }
  }

  /** A traversal that ends does so with one level for every object of the store. */
  lemma {:induction false} EndsShallow(cache: map<Addr, Val>, s0: seq<Obj>, s: seq<Obj>, v: Val, depth: nat, stack: set<nat>)
    requires Ready(cache, s0) && SameLayout(s0, s) && StackLeads(s0, s, stack, v)
    requires Remove(cache, s, v, depth).Done? && |stack| <= |s0|
    ensures Remove(cache, s, v, |s0| - |stack|) == Remove(cache, s, v, depth)
    decreases depth, 0
  {
    if v.Ref? && v.r < |s| {
      var x := v.r;
      SameKids(s0, s, x);
      NoReentry(cache, s0, s, stack, x, depth);
      StackFits(s0, stack, x);
      if IsType(s0, v) {
        ProgressNone(cache, s0, s);
        match s[x]
        case MapO(_, _) => MapShallow(cache, s0, s, x, depth, stack);
        case Ty(_, comps) =>
          assert comps[0..] == comps;
          ListShallow(cache, s0, s, s, x, comps, 0, depth - 1, stack);
      }
    }
  }

  lemma {:induction false} ListShallow(cache: map<Addr, Val>, s0: seq<Obj>, s: seq<Obj>, t: seq<Obj>, x: nat, comps: seq<Val>, i: nat, depth: nat, stack: set<nat>)
    requires x < |s| && s[x].Ty? && comps == s[x].comps && i <= |comps| && x !in stack && |stack| < |s0|
    requires Ready(cache, s0) && Progress(cache, s0, s, t) && SameLayout(s0, s)
    requires IsType(s0, Ref(x)) && StackLeads(s0, s, stack, Ref(x))
    requires RemoveAll(cache, t, comps[i..], depth).DoneAll?
    ensures RemoveAll(cache, t, comps[i..], |s0| - |stack| - 1) == RemoveAll(cache, t, comps[i..], depth)
    decreases depth, 1 + |comps| - i
  {
    hide *;
    ListStep(cache, t, comps, i, depth);
    ListStep(cache, t, comps, i, |s0| - |stack| - 1);
    ProgressLayout(cache, s0, s, t);
    if i < |comps| {
      KidsOfList(s[x]);
      CompLeads(cache, s0, s, t, x, i, stack);
      assert |stack + {x}| == |stack| + 1;
      EndsShallow(cache, s0, t, comps[i], depth, stack + {x});
      var first := Remove(cache, t, comps[i], depth);
      RemoveProgress(cache, s0, t, comps[i], depth);
      ProgressTransitive(cache, s0, s, t, first.store);
      ListShallow(cache, s0, s, first.store, x, comps, i + 1, depth, stack);
    }
  }

  lemma KidsOfList(o: Obj)
    requires o.Ty?
    ensures Kids(o) == o.comps
  {
  }

  lemma KidsOfMap(o: Obj)
    requires o.MapO?
    ensures Kids(o) == [o.keyType, o.valType]
  {
  }

  /** The visit of the components from the `i`-th on, one at a time. */
  lemma ListStep(cache: map<Addr, Val>, t: seq<Obj>, comps: seq<Val>, i: nat, depth: nat)
    requires i <= |comps|
    ensures RemoveAll(cache, t, comps[i..], depth) ==
            if i == |comps| then DoneAll([], t)
            else
              var first := Remove(cache, t, comps[i], depth);
              if first.Raised? then RaisedAll(first.error, first.store)
              else
                var rest := RemoveAll(cache, first.store, comps[i + 1..], depth);
                if rest.RaisedAll? then rest else DoneAll([first.v] + rest.vs, rest.store)
  {
    hide Remove;
    if i < |comps| {
      assert comps[i..][0] == comps[i] && comps[i..][1..] == comps[i + 1..];
    }
  }

  /** The list being visited still describes the object's components, except for replaced placeholders. */
  lemma CompLeads(cache: map<Addr, Val>, s0: seq<Obj>, s: seq<Obj>, t: seq<Obj>, x: nat, i: nat, stack: set<nat>)
    requires Ready(cache, s0) && Progress(cache, s0, s, t)
    requires IsType(s0, Ref(x)) && StackLeads(s0, s, stack, Ref(x))
    requires x < |s| && i < |Kids(s[x])|
    ensures StackLeads(s0, t, stack + {x}, Kids(s[x])[i])
  {
    var v := Kids(s[x])[i];
    ProgressLayout(cache, s0, s, t);
    SameKids(s0, s, x);
    SameKids(s0, t, x);
    if IsType(s0, v) {
      assert ProgressAt(cache, s0, s, t, x, i);
      StackPush(cache, s0, s, t, stack, x, i, v);
    }
  }

  lemma {:induction false} MapShallow(cache: map<Addr, Val>, s0: seq<Obj>, s: seq<Obj>, x: nat, depth: nat, stack: set<nat>)
    requires x !in stack && |stack| < |s0| && x < |s| && s[x].MapO?
    requires Ready(cache, s0) && SameLayout(s0, s) && IsType(s0, Ref(x)) && StackLeads(s0, s, stack, Ref(x))
    requires Remove(cache, s, Ref(x), depth).Done?
    ensures Remove(cache, s, Ref(x), |s0| - |stack|) == Remove(cache, s, Ref(x), depth)
    decreases depth - 1, 1
  {
    hide *;
    MapStep(cache, s, x, depth);
    MapStep(cache, s, x, |s0| - |stack|);
    KidsOfMap(s[x]);
    assert |stack + {x}| == |stack| + 1;
    ProgressNone(cache, s0, s);
    CompLeads(cache, s0, s, s, x, 0, stack);
    EndsShallow(cache, s0, s, s[x].keyType, depth - 1, stack + {x});
    var first := Remove(cache, s, s[x].keyType, depth - 1);
    RemoveProgress(cache, s0, s, s[x].keyType, depth - 1);
    MapVal(cache, s0, s, first.store, x, first.v, stack);
    var s1 := SetKey(first.store, x, first.v);
    EndsShallow(cache, s0, s1, GetVal(s1, x), depth - 1, stack + {x});
  }

  lemma MapVal(cache: map<Addr, Val>, s0: seq<Obj>, s: seq<Obj>, t: seq<Obj>, x: nat, key: Val, stack: set<nat>)
    requires x < |s| && s[x].MapO?
    requires Ready(cache, s0) && Progress(cache, s0, s, t) && IsType(s0, Ref(x)) && StackLeads(s0, s, stack, Ref(x))
    requires key == Resolve(cache, s0, s[x].keyType)
    ensures var s1 := SetKey(t, x, key);
            SameLayout(s0, s1) && StackLeads(s0, s1, stack + {x}, GetVal(s1, x))
  {
    var s1 := SetKey(t, x, key);
    hide Ready;
    hide Progress;
    hide StackLeads;
    KeyWritten(cache, s0, s, t, x, key);
    ProgressLayout(cache, s0, s, s1);
    StackPush(cache, s0, s, s1, stack, x, 1, GetVal(s1, x));
  }

  lemma MapStep(cache: map<Addr, Val>, s: seq<Obj>, x: nat, depth: nat)
    requires x < |s| && s[x].MapO?
    ensures depth == 0 ==> Remove(cache, s, Ref(x), depth).Raised?
    ensures depth > 0 ==>
              Remove(cache, s, Ref(x), depth) ==
              var first := Remove(cache, s, s[x].keyType, depth - 1);
              if first.Raised? then first
              else
                var s1 := SetKey(first.store, x, first.v);
                var second := Remove(cache, s1, GetVal(s1, x), depth - 1);
                if second.Raised? then second else Done(Ref(x), SetVal(second.store, x, second.v))
  {
  }

  /**
    Whatever the graph: the traversal ends within some recursion limit exactly
    when it ends within one level for every object decoded, and then with the
    same result; otherwise it runs out of depth, and nothing else goes wrong.
   */
  lemma EndsWithinStore(cache: map<Addr, Val>, s0: seq<Obj>, v: Val)
    requires Ready(cache, s0)
    ensures Ends(cache, s0, v) <==> Remove(cache, s0, v, |s0|).Done?
    ensures forall depth: nat | Remove(cache, s0, v, depth).Done? :: Remove(cache, s0, v, depth) == Remove(cache, s0, v, |s0|)
    ensures forall depth: nat | Remove(cache, s0, v, depth).Raised? :: Remove(cache, s0, v, depth).error == RecursionLimit
  {
    ProgressSelf(cache, s0);
    forall depth: nat ensures Remove(cache, s0, v, depth).Raised? ==> Remove(cache, s0, v, depth).error == RecursionLimit {
      RaisesLimit(cache, s0, s0, v, depth);
    }
    forall depth: nat | Remove(cache, s0, v, depth).Done?
      ensures Remove(cache, s0, v, depth) == Remove(cache, s0, v, |s0|)
    {
      EndsShallow(cache, s0, s0, v, depth, {});
    }
  }

  /** Some recursion limit suffices. */
  ghost predicate Ends(cache: map<Addr, Val>, s0: seq<Obj>, v: Val) {
    exists depth: nat :: Remove(cache, s0, v, depth).Done?
  }

  /** Storing open objects once is enough, storing those that close a cycle once is necessary. */
  lemma EndsConditions(cache: map<Addr, Val>, s0: seq<Obj>, r: nat)
    requires Ready(cache, s0) && r < |s0|
    ensures OnePath(s0, r) ==> Ends(cache, s0, Ref(r))
    ensures Ends(cache, s0, Ref(r)) ==> OneClosingPath(cache, s0, r)
  {
    hide Remove;
    hide OnePath;
    hide OneClosingPath;
    hide Ready;
    if OnePath(s0, r) {
      RemoveFixesFresh(cache, s0, r, r + 1);
    }
    ProgressSelf(cache, s0);
    if !OneClosingPath(cache, s0, r) {
      forall depth: nat ensures Remove(cache, s0, Ref(r), depth).Raised? {
        SharedNeverEnds(cache, s0, s0, r, depth);
      }
    }
  }

  lemma ProgressSelf(cache: map<Addr, Val>, s0: seq<Obj>)
    ensures Progress(cache, s0, s0, s0)
  {
    ProgressNone(cache, s0, s0);
  }
}
