/**
  Replacing the placeholders of a decoded type in place
  (pwndbg/aglib/godbg.py:550-568).  `depth` is what is left of the interpreter's
  recursion limit; running out of it is Python's RecursionError.
 */
module GoKnot {
  import opened GoDecode
  import opened GoDecodeProofs
  import opened GoUnfold

  datatype Error = RecursionLimit | MissingKey

  datatype Outcome = Done(v: Val, store: seq<Obj>) | Raised(error: Error, store: seq<Obj>)

  datatype ListOutcome = DoneAll(vs: seq<Val>, store: seq<Obj>) | RaisedAll(error: Error, store: seq<Obj>)

  predicate SameKind(x: Obj, y: Obj) {
    match x
    case Backref(_) => y == x
    case MapO(_, _) => y.MapO?
    case Ty(shape, comps) => y.Ty? && y.shape == shape && |y.comps| == |comps|
  }

  ghost predicate SameLayout(s: seq<Obj>, t: seq<Obj>) {
    |s| == |t| && forall x | 0 <= x < |s| :: SameKind(s[x], t[x])
  }

  // The attribute writes.  Objects never change class, so the guards always hold.

  function SetKey(store: seq<Obj>, r: nat, v: Val): seq<Obj> {
    if r < |store| && store[r].MapO? then store[r := store[r].(keyType := v)] else store
  }

  function SetVal(store: seq<Obj>, r: nat, v: Val): seq<Obj> {
    if r < |store| && store[r].MapO? then store[r := store[r].(valType := v)] else store
  }

  function SetComps(store: seq<Obj>, r: nat, vs: seq<Val>): seq<Obj> {
    if r < |store| && store[r].Ty? && |vs| == |store[r].comps| then store[r := store[r].(comps := vs)] else store
  }

  function GetVal(store: seq<Obj>, r: nat): Val {
    if r < |store| && store[r].MapO? then store[r].valType else NoneV
  }

  /** A map's two attributes are written one after the other, the list of any other type once, at the end. */
  function Remove(cache: map<Addr, Val>, store: seq<Obj>, v: Val, depth: nat): Outcome
    decreases depth, 0
  {
    if !v.Ref? || v.r >= |store| then Done(v, store)
    else if depth == 0 then Raised(RecursionLimit, store)
    else
      match store[v.r]
      case Backref(key) => if key in cache then Done(cache[key], store) else Raised(MissingKey, store)
      case MapO(k, _) =>
        var first := Remove(cache, store, k, depth - 1);
        if first.Raised? then first
        else
          var store1 := SetKey(first.store, v.r, first.v);
          var second := Remove(cache, store1, GetVal(store1, v.r), depth - 1);
          if second.Raised? then second else Done(v, SetVal(second.store, v.r, second.v))
      case Ty(_, comps) =>
        var rest := RemoveAll(cache, store, comps, depth - 1);
        if rest.RaisedAll? then Raised(rest.error, rest.store) else Done(v, SetComps(rest.store, v.r, rest.vs))
  }

  function RemoveAll(cache: map<Addr, Val>, store: seq<Obj>, vs: seq<Val>, depth: nat): (res: ListOutcome)
    ensures res.DoneAll? ==> |res.vs| == |vs|
    decreases depth, 1 + |vs|
  {
    if vs == [] then DoneAll([], store)
    else
      var first := Remove(cache, store, vs[0], depth);
      if first.Raised? then RaisedAll(first.error, first.store)
      else
        var rest := RemoveAll(cache, first.store, vs[1..], depth);
        if rest.RaisedAll? then rest else DoneAll([first.v] + rest.vs, rest.store)
  }

  /** Remove, one level unrolled. */
  lemma RemoveOne(cache: map<Addr, Val>, store: seq<Obj>, v: Val, depth: nat)
    ensures !v.Ref? || v.r >= |store| ==> Remove(cache, store, v, depth) == Done(v, store)
    ensures v.Ref? && v.r < |store| && depth == 0 ==> Remove(cache, store, v, depth) == Raised(RecursionLimit, store)
    ensures v.Ref? && v.r < |store| && depth > 0 ==>
              Remove(cache, store, v, depth) ==
              match store[v.r]
              case Backref(key) => (if key in cache then Done(cache[key], store) else Raised(MissingKey, store))
              case MapO(k, _) => RemoveMap(cache, Remove(cache, store, k, depth - 1), v, depth - 1)
              case Ty(_, comps) => RemoveComps(RemoveAll(cache, store, comps, depth - 1), v)
  {
    hide RemoveAll;
    hide SetKey;
    hide SetVal;
    hide GetVal;
    hide SetComps;
  }

  /** The rest of a map's traversal after its key. */
  function RemoveMap(cache: map<Addr, Val>, first: Outcome, v: Val, depth: nat): Outcome
    requires v.Ref?
  {
    if first.Raised? then first
    else
      var store1 := SetKey(first.store, v.r, first.v);
      var second := Remove(cache, store1, GetVal(store1, v.r), depth);
      if second.Raised? then second else Done(v, SetVal(second.store, v.r, second.v))
  }

  function RemoveComps(rest: ListOutcome, v: Val): Outcome
    requires v.Ref?
  {
    if rest.RaisedAll? then Raised(rest.error, rest.store) else Done(v, SetComps(rest.store, v.r, rest.vs))
  }

  // ----- The objects stored inside an object -----

  predicate HasKid(store: seq<Obj>, r: nat, i: nat) {
    r < |store| && i < |Kids(store[r])| && Kids(store[r])[i].Ref? && Kids(store[r])[i].r < r
  }

  function Kid(store: seq<Obj>, r: nat, i: nat): (q: nat)
    requires HasKid(store, r, i)
  {
    Kids(store[r])[i].r
  }

  /** `x` is `r` or is stored inside it, not looking through placeholders. */
  ghost predicate Under(store: seq<Obj>, r: nat, x: nat)
    decreases r
  {
    r < |store| && (x == r || exists i :: HasKid(store, r, i) && Under(store, Kid(store, r, i), x))
  }

  lemma {:induction false} UnderBound(store: seq<Obj>, r: nat, x: nat)
    requires Under(store, r, x)
    ensures x <= r < |store|
    decreases r
  {
    if x != r {
      var i :| HasKid(store, r, i) && Under(store, Kid(store, r, i), x);
      UnderBound(store, Kid(store, r, i), x);
    }
  }

  lemma {:induction false} UnderTransitive(store: seq<Obj>, r: nat, x: nat, y: nat)
    requires Under(store, r, x) && Under(store, x, y)
    ensures Under(store, r, y)
    decreases r
  {
    if x != r {
      var i :| HasKid(store, r, i) && Under(store, Kid(store, r, i), x);
      UnderTransitive(store, Kid(store, r, i), x, y);
    }
  }

  /** A placeholder is stored directly in `x`. */
  ghost predicate Holder(store: seq<Obj>, x: nat) {
    exists i :: HasKid(store, x, i) && store[Kid(store, x, i)].Backref?
  }

  /** A placeholder is stored somewhere inside `x`. */
  ghost predicate Open(store: seq<Obj>, x: nat) {
    exists h :: Under(store, x, h) && Holder(store, h)
  }

  ghost predicate OpenUnder(store: seq<Obj>, r: nat, x: nat) {
    Under(store, r, x) && Open(store, x)
  }

  ghost predicate Disjoint(store: seq<Obj>, r: nat, i: nat, j: nat)
    requires HasKid(store, r, i) && HasKid(store, r, j)
  {
    forall x :: OpenUnder(store, Kid(store, r, i), x) ==> !OpenUnder(store, Kid(store, r, j), x)
  }

  /** Every object that contains a placeholder is stored in exactly one place inside `r`. */
  ghost predicate OnePath(store: seq<Obj>, r: nat)
    decreases r
  {
    && (forall i | HasKid(store, r, i) :: OnePath(store, Kid(store, r, i)))
    && (forall i, j | HasKid(store, r, i) && HasKid(store, r, j) && i < j :: Disjoint(store, r, i, j))
  }

  /** Component `i` of `r` is fine by itself and shares no open object with the earlier ones. */
  ghost predicate KidFine(s0: seq<Obj>, r: nat, i: nat)
    requires HasKid(s0, r, i)
  {
    OnePath(s0, Kid(s0, r, i)) && forall j | 0 <= j < i && HasKid(s0, r, j) :: Disjoint(s0, r, j, i)
  }

  // ----- What the traversal writes -----

  function Fixed(cache: map<Addr, Val>, s0: seq<Obj>, o: Obj): (res: Obj)
    ensures |Kids(res)| == |Kids(o)|
    ensures forall i | 0 <= i < |Kids(o)| :: Kids(res)[i] == Resolve(cache, s0, Kids(o)[i])
  {
    match o
    case Backref(_) => o
    case MapO(k, v) => MapO(Resolve(cache, s0, k), Resolve(cache, s0, v))
    case Ty(shape, comps) =>
      Ty(shape, seq(|comps|, i requires 0 <= i < |comps| => Resolve(cache, s0, comps[i])))
  }

  /** The decoded state is ready: placeholders have final entries, components are older. */
  ghost predicate Ready(cache: map<Addr, Val>, s0: seq<Obj>) {
    && Ordered(s0)
    && (forall x | 0 <= x < |s0| && s0[x].Backref? :: s0[x].key in cache)
    && (forall x | 0 <= x < |s0| && s0[x].Backref? && s0[x].key in cache :: IsType(s0, cache[s0[x].key]) || cache[s0[x].key].NoneV?)
  }

  /** `s` still has the original of everything the traversal of `r` may write. */
  ghost predicate Pristine(s0: seq<Obj>, s: seq<Obj>, r: nat) {
    && SameLayout(s0, s)
    && forall x | 0 <= x < |s0| && (!Open(s0, x) || Under(s0, r, x)) :: s[x] == s0[x]
  }

  /** From `s` to `t`, the open objects inside `r` were fixed and nothing else changed. */
  ghost predicate FixesUnder(cache: map<Addr, Val>, s0: seq<Obj>, s: seq<Obj>, t: seq<Obj>, r: nat) {
    && |s| == |t| == |s0|
    && forall x | 0 <= x < |s0| :: t[x] == if OpenUnder(s0, r, x) then Fixed(cache, s0, s0[x]) else s[x]
  }

  /** The same while the components of `r` up to the `i`-th are done; `r` itself is left open. */
  ghost predicate FixesKids(cache: map<Addr, Val>, s0: seq<Obj>, s: seq<Obj>, t: seq<Obj>, r: nat, i: nat) {
    && |s| == |t| == |s0|
    && forall x | 0 <= x < |s0| && x != r :: t[x] == if UnderKids(s0, r, i, x) then Fixed(cache, s0, s0[x]) else s[x]
  }

  ghost predicate UnderKids(s0: seq<Obj>, r: nat, i: nat, x: nat) {
    exists j | 0 <= j < i :: HasKid(s0, r, j) && OpenUnder(s0, Kid(s0, r, j), x)
  }

  lemma OpenKid(s0: seq<Obj>, r: nat, x: nat)
    requires Under(s0, r, x) && x != r
    ensures exists j :: HasKid(s0, r, j) && Under(s0, Kid(s0, r, j), x)
  {
  }

  /** Before the first component, nothing has changed. */
  lemma FixesNone(cache: map<Addr, Val>, s0: seq<Obj>, s: seq<Obj>, r: nat)
    requires |s| == |s0|
    ensures FixesKids(cache, s0, s, s, r, 0)
  {
  }

  /** One component of `r`: if it shares no open object with the earlier ones it is processed as if alone. */
  lemma {:induction false} KidStep(cache: map<Addr, Val>, s0: seq<Obj>, s: seq<Obj>, t: seq<Obj>, r: nat, i: nat, depth: nat)
    requires Ready(cache, s0) && r < |s0| && i < |Kids(s0[r])|
    requires Pristine(s0, s, r) && FixesKids(cache, s0, s, t, r, i) && SameLayout(s0, t)
    requires Open(s0, r) || t[r] == s0[r]
    requires HasKid(s0, r, i) ==> KidFine(s0, r, i)
    ensures var out := Remove(cache, t, Kids(s0[r])[i], depth);
            && (depth >= r ==> out.Done?)
            && (out.Done? ==> out.v == Resolve(cache, s0, Kids(s0[r])[i])
                              && FixesKids(cache, s0, s, out.store, r, i + 1)
                              && SameLayout(s0, out.store)
                              && out.store[r] == t[r])
    decreases r, 1, 0
  {
    if !HasKid(s0, r, i) {
      NoKid(cache, s0, s, t, r, i);
    } else {
      var q := Kid(s0, r, i);
      KidPristine(cache, s0, s, t, r, i);
      RemoveFixes(cache, s0, t, q, depth);
      var out := Remove(cache, t, Ref(q), depth);
      if out.Done? {
        KidFixed(cache, s0, s, t, out.store, r, i);
      }
    }
  }

  lemma NoKid(cache: map<Addr, Val>, s0: seq<Obj>, s: seq<Obj>, t: seq<Obj>, r: nat, i: nat)
    requires Ready(cache, s0) && r < |s0| && i < |Kids(s0[r])| && !HasKid(s0, r, i)
    requires FixesKids(cache, s0, s, t, r, i)
    ensures !Kids(s0[r])[i].Ref? && FixesKids(cache, s0, s, t, r, i + 1)
  {
    forall x | 0 <= x < |s0| && x != r ensures UnderKids(s0, r, i, x) == UnderKids(s0, r, i + 1, x) {
    }
  }

  lemma KidPristine(cache: map<Addr, Val>, s0: seq<Obj>, s: seq<Obj>, t: seq<Obj>, r: nat, i: nat)
    requires HasKid(s0, r, i) && Ready(cache, s0)
    requires Pristine(s0, s, r) && FixesKids(cache, s0, s, t, r, i) && SameLayout(s0, t)
    requires Open(s0, r) || t[r] == s0[r]
    requires forall j | 0 <= j < i && HasKid(s0, r, j) :: Disjoint(s0, r, j, i)
    ensures Pristine(s0, t, Kid(s0, r, i))
  {
    var q := Kid(s0, r, i);
    forall x | 0 <= x < |s0| && (!Open(s0, x) || Under(s0, q, x)) ensures t[x] == s0[x] {
      if Under(s0, q, x) {
        UnderBound(s0, q, x);
        assert Under(s0, r, x);
      }
    }
  }

  lemma KidFixed(cache: map<Addr, Val>, s0: seq<Obj>, s: seq<Obj>, t: seq<Obj>, u: seq<Obj>, r: nat, i: nat)
    requires HasKid(s0, r, i)
    requires FixesKids(cache, s0, s, t, r, i) && FixesUnder(cache, s0, t, u, Kid(s0, r, i))
    ensures FixesKids(cache, s0, s, u, r, i + 1) && u[r] == t[r]
  {
    var q := Kid(s0, r, i);
    forall x | 0 <= x < |s0| && x != r
      ensures UnderKids(s0, r, i + 1, x) == (UnderKids(s0, r, i, x) || OpenUnder(s0, q, x))
    {
    }
    if OpenUnder(s0, q, r) {
      UnderBound(s0, q, r);
    }
  }

  /** After the last component, writing `r` itself completes the job. */
  lemma AllKidsFixed(cache: map<Addr, Val>, s0: seq<Obj>, s: seq<Obj>, t: seq<Obj>, u: seq<Obj>, r: nat)
    requires Ready(cache, s0) && r < |s0| && Pristine(s0, s, r)
    requires FixesKids(cache, s0, s, t, r, |Kids(s0[r])|)
    requires u == t[r := Fixed(cache, s0, s0[r])]
    ensures FixesUnder(cache, s0, s, u, r)
  {
    forall x | 0 <= x < |s0| && x != r ensures UnderKids(s0, r, |Kids(s0[r])|, x) == OpenUnder(s0, r, x) {
      if OpenUnder(s0, r, x) {
        OpenKid(s0, r, x);
      }
    }
    assert Under(s0, r, r);
    if !Open(s0, r) {
      ClosedFixed(cache, s0, r);
    }
  }

  lemma ClosedFixed(cache: map<Addr, Val>, s0: seq<Obj>, r: nat)
    requires Ready(cache, s0) && r < |s0| && !Open(s0, r)
    ensures Fixed(cache, s0, s0[r]) == s0[r]
    ensures forall i | 0 <= i < |Kids(s0[r])| :: Resolve(cache, s0, Kids(s0[r])[i]) == Kids(s0[r])[i]
  {
    assert Under(s0, r, r);
    forall i | 0 <= i < |Kids(s0[r])| ensures Resolve(cache, s0, Kids(s0[r])[i]) == Kids(s0[r])[i] {
      if Kids(s0[r])[i].Ref? {
        assert HasKid(s0, r, i);
      }
    }
    match s0[r]
    case Backref(_) =>
    case MapO(k, v) => assert Kids(s0[r])[0] == k && Kids(s0[r])[1] == v;
    case Ty(_, comps) => assert Fixed(cache, s0, s0[r]).comps == comps;
  }

  lemma ListFixed(cache: map<Addr, Val>, s0: seq<Obj>, s: seq<Obj>, t: seq<Obj>, r: nat, vs: seq<Val>)
    requires Ready(cache, s0) && r < |s0| && Pristine(s0, s, r) && s0[r].Ty?
    requires FixesKids(cache, s0, s, t, r, |Kids(s0[r])|) && SameLayout(s0, t) && t[r] == s0[r]
    requires |vs| == |s0[r].comps| && forall i | 0 <= i < |vs| :: vs[i] == Resolve(cache, s0, s0[r].comps[i])
    ensures FixesUnder(cache, s0, s, SetComps(t, r, vs), r) && SameLayout(s0, SetComps(t, r, vs))
  {
    assert vs == Fixed(cache, s0, s0[r]).comps;
    AllKidsFixed(cache, s0, s, t, SetComps(t, r, vs), r);
  }

  lemma KeyFixed(cache: map<Addr, Val>, s0: seq<Obj>, s: seq<Obj>, t: seq<Obj>, r: nat)
    requires Ready(cache, s0) && r < |s0| && s0[r].MapO?
    requires FixesKids(cache, s0, s, t, r, 1) && SameLayout(s0, t) && t[r] == s0[r]
    ensures var t1 := SetKey(t, r, Resolve(cache, s0, s0[r].keyType));
            && FixesKids(cache, s0, s, t1, r, 1) && SameLayout(s0, t1)
            && r < |t1| && t1[r] == MapO(Resolve(cache, s0, s0[r].keyType), s0[r].valType)
            && (Open(s0, r) || t1[r] == s0[r])
  {
    if !Open(s0, r) {
      ClosedFixed(cache, s0, r);
      assert Kids(s0[r])[0] == s0[r].keyType;
    }
  }

  lemma MapFixed(cache: map<Addr, Val>, s0: seq<Obj>, s: seq<Obj>, t: seq<Obj>, r: nat)
    requires Ready(cache, s0) && r < |s0| && Pristine(s0, s, r) && s0[r].MapO?
    requires FixesKids(cache, s0, s, t, r, 2) && SameLayout(s0, t)
    requires t[r] == MapO(Resolve(cache, s0, s0[r].keyType), s0[r].valType)
    ensures var u := SetVal(t, r, Resolve(cache, s0, s0[r].valType));
            FixesUnder(cache, s0, s, u, r) && SameLayout(s0, u)
  {
    AllKidsFixed(cache, s0, s, t, SetVal(t, r, Resolve(cache, s0, s0[r].valType)), r);
  }

  /** On a type whose open objects are each stored once, the traversal ends and fixes exactly those. */
  lemma {:induction false} RemoveFixes(cache: map<Addr, Val>, s0: seq<Obj>, s: seq<Obj>, r: nat, depth: nat)
    requires Ready(cache, s0) && r < |s0| && OnePath(s0, r) && Pristine(s0, s, r)
    ensures var out := Remove(cache, s, Ref(r), depth);
            && (depth > r ==> out.Done?)
            && (out.Done? ==> out.v == Resolve(cache, s0, Ref(r))
                              && FixesUnder(cache, s0, s, out.store, r)
                              && SameLayout(s0, out.store))
    decreases r, 3, 0
  {
    assert Under(s0, r, r) && r < |s| && s[r] == s0[r];
    FixesNone(cache, s0, s, r);
    if depth > 0 {
      match s0[r]
      case Backref(_) =>
        assert !exists i :: HasKid(s0, r, i);
      case MapO(_, _) => RemoveFixesMap(cache, s0, s, r, depth);
      case Ty(_, comps) =>
        hide FixesKids;
        hide FixesUnder;
        hide Pristine;
        hide Ready;
        hide Under;
        hide OnePath;
        RemoveAllFixes(cache, s0, s, s, r, 0, depth - 1);
        assert comps[0..] == comps;
        var rest := RemoveAll(cache, s, comps, depth - 1);
        if rest.DoneAll? {
          ListFixed(cache, s0, s, rest.store, r, rest.vs);
        }
    }
  }

  /** The steps on a map object, one level unrolled. */
  lemma MapSteps(cache: map<Addr, Val>, s: seq<Obj>, r: nat, depth: nat)
    requires r < |s| && s[r].MapO? && depth > 0
    ensures var out := Remove(cache, s, Ref(r), depth);
            var first := Remove(cache, s, s[r].keyType, depth - 1);
            if first.Raised? then out.Raised?
            else
              var s1 := SetKey(first.store, r, first.v);
              var second := Remove(cache, s1, GetVal(s1, r), depth - 1);
              if second.Raised? then out.Raised? else out == Done(Ref(r), SetVal(second.store, r, second.v))
  {
  }

  lemma MapKids(s0: seq<Obj>, r: nat)
    requires Ordered(s0) && r < |s0| && s0[r].MapO? && OnePath(s0, r)
    ensures (HasKid(s0, r, 0) ==> KidFine(s0, r, 0)) && (HasKid(s0, r, 1) ==> KidFine(s0, r, 1))
    ensures Kids(s0[r]) == [s0[r].keyType, s0[r].valType]
  {
  }

  lemma {:induction false} RemoveFixesMap(cache: map<Addr, Val>, s0: seq<Obj>, s: seq<Obj>, r: nat, depth: nat)
    requires Ready(cache, s0) && r < |s0| && OnePath(s0, r) && Pristine(s0, s, r)
    requires s0[r].MapO? && s[r] == s0[r] && depth > 0
    ensures var out := Remove(cache, s, Ref(r), depth);
            && (depth > r ==> out.Done?)
            && (out.Done? ==> out.v == Ref(r) && FixesUnder(cache, s0, s, out.store, r) && SameLayout(s0, out.store))
    decreases r, 2, 0
  {
    FixesNone(cache, s0, s, r);
    MapKids(s0, r);
    MapSteps(cache, s, r, depth);
    hide FixesKids;
    hide FixesUnder;
    hide Pristine;
    hide Ready;
    hide OnePath;
    hide KidFine;
    hide Open;
    hide Under;
    hide Remove;
    KidStep(cache, s0, s, s, r, 0, depth - 1);
    var first := Remove(cache, s, s0[r].keyType, depth - 1);
    if first.Done? {
      KeyFixed(cache, s0, s, first.store, r);
      var store1 := SetKey(first.store, r, first.v);
      KidStep(cache, s0, s, store1, r, 1, depth - 1);
      var second := Remove(cache, store1, s0[r].valType, depth - 1);
      if second.Done? {
        MapFixed(cache, s0, s, second.store, r);
      }
    }
  }

  lemma ConsResolved(cache: map<Addr, Val>, s0: seq<Obj>, kids: seq<Val>, i: nat, v: Val, vs: seq<Val>)
    requires i < |kids| && |vs| <= |kids| - i - 1 && v == Resolve(cache, s0, kids[i])
    requires forall j | 0 <= j < |vs| :: vs[j] == Resolve(cache, s0, kids[i + 1 + j])
    ensures forall j | 0 <= j < |vs| + 1 :: ([v] + vs)[j] == Resolve(cache, s0, kids[i + j])
  {
    hide Resolve;
    forall j | 0 < j < |vs| + 1 ensures ([v] + vs)[j] == Resolve(cache, s0, kids[i + j]) {
      assert vs[j - 1] == Resolve(cache, s0, kids[i + 1 + (j - 1)]);
    }
  }

  lemma {:induction false} RemoveAllFixes(cache: map<Addr, Val>, s0: seq<Obj>, s: seq<Obj>, t: seq<Obj>, r: nat, i: nat, depth: nat)
    requires Ready(cache, s0) && r < |s0| && OnePath(s0, r) && Pristine(s0, s, r)
    requires i <= |Kids(s0[r])| && FixesKids(cache, s0, s, t, r, i) && SameLayout(s0, t)
    requires t[r] == s0[r]
    ensures var out := RemoveAll(cache, t, Kids(s0[r])[i..], depth);
            && (depth >= r ==> out.DoneAll?)
            && (out.DoneAll? ==> FixesKids(cache, s0, s, out.store, r, |Kids(s0[r])|)
                                 && SameLayout(s0, out.store) && out.store[r] == s0[r]
                                 && forall j | 0 <= j < |out.vs| :: out.vs[j] == Resolve(cache, s0, Kids(s0[r])[i + j]))
    decreases r, 2, |Kids(s0[r])| - i
  {
    hide FixesKids;
    hide Pristine;
    hide Ready;
    hide SameLayout;
    var kids := Kids(s0[r]);
    if i < |kids| {
      KidStep(cache, s0, s, t, r, i, depth);
      var first := Remove(cache, t, kids[i], depth);
      assert kids[i..][0] == kids[i] && kids[i..][1..] == kids[i + 1..];
      if first.Done? {
        RemoveAllFixes(cache, s0, s, first.store, r, i + 1, depth);
        var rest := RemoveAll(cache, first.store, kids[i + 1..], depth);
        if rest.DoneAll? {
          ConsResolved(cache, s0, kids, i, first.v, rest.vs);
        }
      }
    }
  }

  /** The traversal of a freshly decoded type whose open objects are each stored once. */
  lemma RemoveFixesFresh(cache: map<Addr, Val>, s0: seq<Obj>, r: nat, depth: nat)
    requires Ready(cache, s0) && r < |s0| && OnePath(s0, r)
    ensures var out := Remove(cache, s0, Ref(r), depth);
            && (depth > r ==> out.Done?)
            && (out.Done? ==> FixesUnder(cache, s0, s0, out.store, r))
  {
    hide Remove;
    hide FixesUnder;
    hide OnePath;
    RemoveFixes(cache, s0, s0, r, depth);
  }
}
