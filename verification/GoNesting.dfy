/**
  Where no function or interface type mentions further types, everything the
  decoder allocates for a type ends up stored inside that type
  (pwndbg/aglib/godbg.py:571-763).
 */
module GoNesting {
  import opened GoDecode
  import opened GoDecodeProofs
  import opened GoKnot

  /** Good addresses with all their parts, where functions and interfaces mention no further types. */
  ghost predicate Plain(mem: Memory, p: set<Addr>) {
    && Good(mem, p)
    && forall a {:trigger PlainAt(mem, p, a)} | a in p :: PlainAt(mem, p, a)
  }

  ghost predicate PlainAt(mem: Memory, p: set<Addr>, a: Addr)
    requires a in mem
  {
    && (mem[a].Func? ==> mem[a].params == [])
    && (mem[a].Interface? ==> mem[a].methods == [])
    && forall i | 0 <= i < |Parts(mem[a])| :: Parts(mem[a])[i] in p
  }

  /** Every object allocated from index `n` on is stored inside `v`. */
  ghost predicate Nested(store: seq<Obj>, n: nat, v: Val) {
    forall h | n <= h < |store| && !store[h].Backref? :: v.Ref? && Under(store, v.r, h)
  }

  ghost predicate NestedInSome(store: seq<Obj>, n: nat, vs: seq<Val>) {
    forall h | n <= h < |store| && !store[h].Backref? ::
      exists i :: 0 <= i < |vs| && vs[i].Ref? && Under(store, vs[i].r, h)
  }

  /** A placeholder's holder is stored inside the placeholder's object, unless that is still being decoded. */
  ghost predicate Held(st: State, pending: set<Addr>) {
    forall h, k | HasKid(st.store, h, k) && st.store[Kid(st.store, h, k)].Backref? :: HeldAt(st, pending, h, k)
  }

  ghost predicate HeldAt(st: State, pending: set<Addr>, h: nat, k: nat)
    requires HasKid(st.store, h, k) && st.store[Kid(st.store, h, k)].Backref?
  {
    var key := st.store[Kid(st.store, h, k)].key;
    key in pending || (key in st.cache && st.cache[key].Ref? && Under(st.store, st.cache[key].r, h))
  }

  lemma {:induction false} UnderExtends(s: seq<Obj>, t: seq<Obj>, r: nat, x: nat)
    requires s <= t && r < |s|
    ensures Under(s, r, x) == Under(t, r, x)
    decreases r
  {
    forall i | HasKid(s, r, i) ensures Under(s, Kid(s, r, i), x) == Under(t, Kid(t, r, i), x) {
      UnderExtends(s, t, Kid(s, r, i), x);
    }
    assert forall i :: HasKid(s, r, i) == HasKid(t, r, i);
  }

  lemma HeldGrows(st: State, later: State, pending: set<Addr>, h: nat, k: nat)
    requires Grows(st, later) && CacheOk(st, pending)
    requires h < |st.store| && HasKid(st.store, h, k) && st.store[Kid(st.store, h, k)].Backref? && HeldAt(st, pending, h, k)
    ensures HasKid(later.store, h, k) && HeldAt(later, pending, h, k)
  {
    var key := st.store[Kid(st.store, h, k)].key;
    if key !in pending {
      UnderBound(st.store, st.cache[key].r, h);
      UnderExtends(st.store, later.store, st.cache[key].r, h);
    }
  }

  /** A new object around everything allocated since `n`. */
  lemma AllocPlain(st: State, pending: set<Addr>, n: nat, o: Obj)
    requires CacheOk(st, pending) && Held(st, pending) && n <= |st.store| && !o.Backref?
    requires forall i | 0 <= i < |Kids(o)| && Kids(o)[i].Ref? :: Kids(o)[i].r < |st.store|
    requires forall i | 0 <= i < |Kids(o)| && Kids(o)[i].Ref? && st.store[Kids(o)[i].r].Backref? :: st.store[Kids(o)[i].r].key in pending
    requires NestedInSome(st.store, n, Kids(o))
    ensures var (v, st') := Alloc(st, o); Held(st', pending) && Nested(st'.store, n, v)
  {
    var (v, st') := Alloc(st, o);
    forall h: nat, k: nat | HasKid(st'.store, h, k) && st'.store[Kid(st'.store, h, k)].Backref?
      ensures HeldAt(st', pending, h, k)
    {
      if h < |st.store| {
        assert HasKid(st.store, h, k);
        HeldGrows(st, st', pending, h, k);
      }
    }
    forall h | n <= h < |st'.store| && !st'.store[h].Backref? ensures Under(st'.store, v.r, h) {
      if h < |st.store| {
        var i :| 0 <= i < |Kids(o)| && Kids(o)[i].Ref? && Under(st.store, Kids(o)[i].r, h);
        UnderExtends(st.store, st'.store, Kids(o)[i].r, h);
        assert HasKid(st'.store, v.r, i);
      }
    }
  }

  lemma NestedExtends(st: State, later: State, n: nat, v: Val, w: Val)
    requires st.store <= later.store && Nested(st.store, n, v) && Nested(later.store, |st.store|, w) && n <= |st.store|
    requires v.Ref? ==> v.r < |st.store|
    ensures NestedInSome(later.store, n, [v, w])
  {
    forall h | n <= h < |later.store| && !later.store[h].Backref?
      ensures exists i :: 0 <= i < 2 && [v, w][i].Ref? && Under(later.store, [v, w][i].r, h)
    {
      if h < |st.store| {
        UnderExtends(st.store, later.store, v.r, h);
        assert [v, w][0] == v;
      } else {
        assert [v, w][1] == w;
      }
    }
  }

  lemma {:induction false} DecodePlain(mem: Memory, p: set<Addr>, a: Addr, st: State, pending: set<Addr>)
    requires Plain(mem, p) && a in p && Inv(mem, p, st, pending) && Held(st, pending)
    ensures var (v, st') := Decode(mem, a, st);
            Held(st', pending) && Nested(st'.store, |st.store|, v)
    decreases mem.Keys - st.cache.Keys, 0, 0
  {
    if a !in st.cache {
      assert a in mem;
      var st1 := State(st.cache[a := Ref(|st.store|)], st.store + [Backref(a)]);
      assert a in mem.Keys - st.cache.Keys && a !in mem.Keys - st1.cache.Keys;
      GoodNotFailing(mem, p, a);
      EnterInv(mem, p, st, pending, a, st1);
      EnterHeld(st, pending, a, st1);
      ComputePlain(mem, p, a, st1, pending + {a});
      ComputeInv(mem, p, a, st1, pending + {a});
      var (v, st2) := Compute(mem, a, st1);
      LeaveHeld(st, st2, pending, a, v);
    }
  }

  lemma EnterHeld(st: State, pending: set<Addr>, a: Addr, st1: State)
    requires CacheOk(st, pending) && Held(st, pending) && a !in st.cache
    requires st1 == State(st.cache[a := Ref(|st.store|)], st.store + [Backref(a)])
    ensures Held(st1, pending + {a})
  {
    forall h: nat, k: nat | HasKid(st1.store, h, k) && st1.store[Kid(st1.store, h, k)].Backref?
      ensures HeldAt(st1, pending + {a}, h, k)
    {
      assert HasKid(st.store, h, k);
      HeldGrows(st, st1, pending, h, k);
    }
  }

  lemma LeaveHeld(st: State, st2: State, pending: set<Addr>, a: Addr, v: Val)
    requires a !in pending && a !in st.cache
    requires CacheOk(st2, pending + {a}) && PlaceholdersOk(st2) && Held(st2, pending + {a})
    requires st.store + [Backref(a)] <= st2.store
    requires Nested(st2.store, |st.store| + 1, v)
    ensures Held(State(st2.cache[a := v], st2.store), pending)
    ensures Nested(st2.store, |st.store|, v)
  {
    var st3 := State(st2.cache[a := v], st2.store);
    var b := |st.store|;
    assert st2.store[b] == Backref(a);
    forall h: nat, k: nat | HasKid(st3.store, h, k) && st3.store[Kid(st3.store, h, k)].Backref?
      ensures HeldAt(st3, pending, h, k)
    {
      assert HeldAt(st2, pending + {a}, h, k);
      if st3.store[Kid(st3.store, h, k)].key == a {
        assert Kid(st3.store, h, k) == b;
      }
    }
  }

  lemma {:induction false} ComputePlain(mem: Memory, p: set<Addr>, a: Addr, st: State, pending: set<Addr>)
    requires Plain(mem, p) && a in p && a in mem && Inv(mem, p, st, pending) && Held(st, pending)
    ensures var (v, st') := Compute(mem, a, st);
            Held(st', pending) && Nested(st'.store, |st.store|, v)
    decreases mem.Keys - st.cache.Keys, 2, 0
  {
    GoodParts(mem, p, a);
    assert PlainAt(mem, p, a);
    match mem[a]
    case Simple(name) => AllocPlain(st, pending, |st.store|, Ty(BasicS(name), []));
    case Func(_) => AllocPlain(st, pending, |st.store|, Ty(BasicS("funcptr"), []));
    case Interface(_) => AllocPlain(st, pending, |st.store|, Ty(BasicS("any"), []));
    case Array(elem, len) =>
      assert Parts(mem[a])[0] == elem;
      WrapPlain(mem, p, elem, st, pending, ArrayS(len));
    case Slice(elem) =>
      assert Parts(mem[a])[0] == elem;
      WrapPlain(mem, p, elem, st, pending, SliceS);
    case Pointer(elem) =>
      assert Parts(mem[a])[0] == elem;
      WrapPlain(mem, p, elem, st, pending, PointerS);
    case Map(key, val) =>
      assert Parts(mem[a])[0] == key && Parts(mem[a])[1] == val;
      MapPlain(mem, p, key, val, st, pending);
    case Struct(fields, size, align) =>
      forall i | 0 <= i < |fields| ensures FieldTypes(fields)[i] in p {
        assert Parts(mem[a])[i] == FieldTypes(fields)[i];
      }
      StructPlain(mem, p, fields, size, align, st, pending);
  }

  /** The result of decoding an address of `p`, in the form an enclosing object needs. */
  lemma PartResult(mem: Memory, p: set<Addr>, a: Addr, st: State, pending: set<Addr>)
    requires Plain(mem, p) && a in p && Inv(mem, p, st, pending)
    ensures var (v, st') := Decode(mem, a, st);
            && Inv(mem, p, st', pending) && v.Ref? && v.r < |st'.store|
            && (st'.store[v.r].Backref? ==> st'.store[v.r].key in pending)
  {
    DecodeInv(mem, p, a, st, pending);
  }

  lemma {:induction false} WrapPlain(mem: Memory, p: set<Addr>, elem: Addr, st: State, pending: set<Addr>, shape: Shape)
    requires Plain(mem, p) && elem in p && Inv(mem, p, st, pending) && Held(st, pending)
    ensures var (v, st1) := Decode(mem, elem, st);
            var (w, st2) := Alloc(st1, Ty(shape, [v]));
            !v.NoneV? && Held(st2, pending) && Nested(st2.store, |st.store|, w)
    decreases mem.Keys - st.cache.Keys, 1, 0
  {
    DecodePlain(mem, p, elem, st, pending);
    PartResult(mem, p, elem, st, pending);
    var (v, st1) := Decode(mem, elem, st);
    assert Kids(Ty(shape, [v]))[0] == v;
    AllocPlain(st1, pending, |st.store|, Ty(shape, [v]));
  }

  lemma {:induction false} MapPlain(mem: Memory, p: set<Addr>, key: Addr, val: Addr, st: State, pending: set<Addr>)
    requires Plain(mem, p) && key in p && val in p && Inv(mem, p, st, pending) && Held(st, pending)
    ensures var (k, st1) := Decode(mem, key, st);
            var (v, st2) := Decode(mem, val, st1);
            var (m, st3) := Alloc(st2, MapO(k, v));
            var (w, st4) := Alloc(st3, Ty(PointerS, [m]));
            !k.NoneV? && !v.NoneV? && Held(st4, pending) && Nested(st4.store, |st.store|, w)
    decreases mem.Keys - st.cache.Keys, 1, 0
  {
    DecodePlain(mem, p, key, st, pending);
    PartResult(mem, p, key, st, pending);
    var (k, st1) := Decode(mem, key, st);
    DecodePlain(mem, p, val, st1, pending);
    PartResult(mem, p, val, st1, pending);
    var (v, st2) := Decode(mem, val, st1);
    NestedExtends(st1, st2, |st.store|, k, v);
    MapAlloc(mem, p, st2, pending, |st.store|, k, v);
  }

  lemma MapAlloc(mem: Memory, p: set<Addr>, st: State, pending: set<Addr>, n: nat, k: Val, v: Val)
    requires Inv(mem, p, st, pending) && Held(st, pending) && n <= |st.store|
    requires k.Ref? && k.r < |st.store| && (st.store[k.r].Backref? ==> st.store[k.r].key in pending)
    requires v.Ref? && v.r < |st.store| && (st.store[v.r].Backref? ==> st.store[v.r].key in pending)
    requires NestedInSome(st.store, n, [k, v])
    ensures var (m, st1) := Alloc(st, MapO(k, v));
            var (w, st2) := Alloc(st1, Ty(PointerS, [m]));
            Held(st2, pending) && Nested(st2.store, n, w)
  {
    assert Kids(MapO(k, v)) == [k, v];
    AllocPlain(st, pending, n, MapO(k, v));
    AllocInv(mem, p, st, pending, MapO(k, v));
    var (m, st1) := Alloc(st, MapO(k, v));
    assert Kids(Ty(PointerS, [m]))[0] == m;
    AllocPlain(st1, pending, n, Ty(PointerS, [m]));
  }

  lemma {:induction false} StructPlain(mem: Memory, p: set<Addr>, fields: seq<FieldDesc>, size: nat, align: nat, st: State, pending: set<Addr>)
    requires Plain(mem, p) && Inv(mem, p, st, pending) && Held(st, pending)
    requires forall i | 0 <= i < |fields| :: FieldTypes(fields)[i] in p
    ensures var (vals, st1) := DecodeAll(mem, FieldTypes(fields), st);
            var (w, st2) := Alloc(st1, Ty(StructShape(Sorted(fields), size, align), StructComps(fields, vals)));
            Held(st2, pending) && Nested(st2.store, |st.store|, w)
    decreases mem.Keys - st.cache.Keys, 1, |fields| + 1
  {
    DecodeAllPlain(mem, p, FieldTypes(fields), st, pending);
    DecodeAllInv(mem, p, FieldTypes(fields), st, pending);
    var (vals, st1) := DecodeAll(mem, FieldTypes(fields), st);
    var comps := StructComps(fields, vals);
    hide DecodeAll;
    CompsStored(mem, p, fields, vals, st1, pending);
    CompsNested(fields, vals, st1.store, |st.store|);
    CacheIsOk(mem, p, st1, pending);
    hide *;
    var o := Ty(StructShape(Sorted(fields), size, align), comps);
    KidsOfType(o.shape, comps);
    AllocPlain(st1, pending, |st.store|, o);
  }

  lemma KidsOfType(shape: Shape, comps: seq<Val>)
    ensures Kids(Ty(shape, comps)) == comps
  {
  }

  lemma CacheIsOk(mem: Memory, good: set<Addr>, st: State, pending: set<Addr>)
    requires Inv(mem, good, st, pending)
    ensures CacheOk(st, pending)
  {
  }

  lemma CompsStored(mem: Memory, p: set<Addr>, fields: seq<FieldDesc>, vals: seq<Val>, st: State, pending: set<Addr>)
    requires |vals| == |fields|
    requires forall i | 0 <= i < |fields| :: FieldTypes(fields)[i] in p && ResultOk(mem, p, FieldTypes(fields)[i], vals[i], st, pending)
    ensures forall v | v in StructComps(fields, vals) ::
              v.Ref? && v.r < |st.store| && (st.store[v.r].Backref? ==> st.store[v.r].key in pending)
  {
    var order := FieldOrder(Offsets(fields), |fields|);
    forall i | 0 <= i < |fields|
      ensures var v := StructComps(fields, vals)[i];
              v.Ref? && v.r < |st.store| && (st.store[v.r].Backref? ==> st.store[v.r].key in pending)
    {
      assert ResultOk(mem, p, FieldTypes(fields)[order[i]], vals[order[i]], st, pending);
    }
  }

  lemma CompsNested(fields: seq<FieldDesc>, vals: seq<Val>, store: seq<Obj>, n: nat)
    requires |vals| == |fields| && NestedInSome(store, n, vals)
    ensures NestedInSome(store, n, StructComps(fields, vals))
  {
    hide Under;
    var comps := StructComps(fields, vals);
    var order := FieldOrder(Offsets(fields), |fields|);
    forall h | n <= h < |store| && !store[h].Backref?
      ensures exists i :: 0 <= i < |comps| && comps[i].Ref? && Under(store, comps[i].r, h)
    {
      var y: nat :| y < |vals| && vals[y].Ref? && Under(store, vals[y].r, h);
      assert y in order;
      var i :| 0 <= i < |order| && order[i] == y;
      assert comps[i] == vals[y];
    }
  }

  lemma {:induction false} DecodeAllPlain(mem: Memory, p: set<Addr>, addrs: seq<Addr>, st: State, pending: set<Addr>)
    requires Plain(mem, p) && Inv(mem, p, st, pending) && Held(st, pending)
    requires forall i | 0 <= i < |addrs| :: addrs[i] in p
    ensures var (vs, st') := DecodeAll(mem, addrs, st);
            Held(st', pending) && NestedInSome(st'.store, |st.store|, vs)
    decreases mem.Keys - st.cache.Keys, 1, |addrs|
  {
    hide Inv;
    hide Held;
    hide Nested;
    hide NestedInSome;
    hide Plain;
    if addrs != [] {
      DecodePlain(mem, p, addrs[0], st, pending);
      PartResult(mem, p, addrs[0], st, pending);
      var (v, st1) := Decode(mem, addrs[0], st);
      DecodeAllPlain(mem, p, addrs[1..], st1, pending);
      var (vs, st2) := DecodeAll(mem, addrs[1..], st1);
      NestedJoin(st1.store, st2.store, |st.store|, v, vs);
      hide *;
      AllOf(mem, addrs, st);
    } else {
      hide *;
      AllOfNone(mem, st);
      NothingNested(st.store);
    }
  }

  lemma AllOf(mem: Memory, addrs: seq<Addr>, st: State)
    requires addrs != []
    ensures var (v, st1) := Decode(mem, addrs[0], st);
            var (vs, st2) := DecodeAll(mem, addrs[1..], st1);
            DecodeAll(mem, addrs, st) == ([v] + vs, st2)
  {
    hide Decode;
  }

  lemma AllOfNone(mem: Memory, st: State)
    ensures DecodeAll(mem, [], st) == ([], st)
  {
  }

  lemma NothingNested(store: seq<Obj>)
    ensures NestedInSome(store, |store|, [])
  {
  }

  lemma NestedJoin(s: seq<Obj>, t: seq<Obj>, n: nat, v: Val, vs: seq<Val>)
    requires s <= t && n <= |s| && v.Ref? && v.r < |s|
    requires Nested(s, n, v) && NestedInSome(t, |s|, vs)
    ensures NestedInSome(t, n, [v] + vs)
  {
    hide Under;
    var all := [v] + vs;
    forall h | n <= h < |t| && !t[h].Backref?
      ensures exists i :: 0 <= i < |all| && all[i].Ref? && Under(t, all[i].r, h)
    {
      if h < |s| {
        UnderExtends(s, t, v.r, h);
        assert all[0] == v;
      } else {
        var i :| 0 <= i < |vs| && vs[i].Ref? && Under(t, vs[i].r, h);
        assert all[i + 1] == vs[i];
      }
    }
  }
}
