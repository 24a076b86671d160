/** Every type gets an object of its own, and every map a map object of its own. */
module GoFresh {
  import opened GoDecode

  /** The object `r` is the pointer to the map object made just before it. */
  predicate PointsBelow(store: seq<Obj>, r: nat) {
    0 < r < |store| && store[r].Ty? && store[r].comps == [Ref(r - 1)]
  }

  ghost predicate Fresh(mem: Memory, st: State) {
    && (forall k | k in st.cache && st.cache[k].Ref? :: st.cache[k].r < |st.store|)
    && (forall k, l | k in st.cache && l in st.cache && k != l && st.cache[k].Ref? :: st.cache[k] != st.cache[l])
    && (forall k | k in st.cache && k in mem && mem[k].Map? && st.cache[k].Ref? && st.store[st.cache[k].r].Ty? ::
          PointsBelow(st.store, st.cache[k].r))
  }

  /** `v` is nothing, or the object made last, and no other entry's. */
  ghost predicate IsNew(mem: Memory, a: Addr, v: Val, st: State) {
    v.Ref? ==>
      && v.r == |st.store| - 1
      && (forall k | k in st.cache && st.cache[k].Ref? :: st.cache[k].r < v.r)
      && (a in mem && mem[a].Map? ==> PointsBelow(st.store, v.r))
  }

  lemma AllocFresh(mem: Memory, st: State, o: Obj)
    requires Fresh(mem, st)
    ensures Fresh(mem, Alloc(st, o).1)
  {
  }

  lemma EnterFresh(mem: Memory, st: State, a: Addr)
    requires Fresh(mem, st) && a !in st.cache
    ensures Fresh(mem, State(st.cache[a := Ref(|st.store|)], st.store + [Backref(a)]))
  {
  }

  lemma LeaveFresh(mem: Memory, st: State, a: Addr, v: Val)
    requires Fresh(mem, st) && IsNew(mem, a, v, st)
    ensures Fresh(mem, State(st.cache[a := v], st.store))
  {
  }

  lemma {:induction false} DecodeFresh(mem: Memory, a: Addr, st: State)
    requires Fresh(mem, st)
    ensures Fresh(mem, Decode(mem, a, st).1)
    decreases mem.Keys - st.cache.Keys, 0, 0
  {
    if a !in st.cache && a in mem {
      var st1 := State(st.cache[a := Ref(|st.store|)], st.store + [Backref(a)]);
      assert a in mem.Keys - st.cache.Keys && a !in mem.Keys - st1.cache.Keys;
      EnterFresh(mem, st, a);
      ComputeFresh(mem, a, st1);
      var (v, st2) := Compute(mem, a, st1);
      LeaveFresh(mem, st2, a, v);
      hide Fresh;
    }
  }

  lemma {:induction false} DecodeAllFresh(mem: Memory, addrs: seq<Addr>, st: State)
    requires Fresh(mem, st)
    ensures Fresh(mem, DecodeAll(mem, addrs, st).1)
    decreases mem.Keys - st.cache.Keys, 1, |addrs|
  {
    hide Fresh;
    if addrs != [] {
      DecodeFresh(mem, addrs[0], st);
      DecodeAllFresh(mem, addrs[1..], Decode(mem, addrs[0], st).1);
    }
  }

  /** A new object around what was decoded. */
  lemma LastIsNew(mem: Memory, a: Addr, st: State, o: Obj)
    requires Fresh(mem, st) && (a in mem && mem[a].Map? ==> o.Ty? && |st.store| > 0 && o.comps == [Ref(|st.store| - 1)])
    ensures var (v, st') := Alloc(st, o); Fresh(mem, st') && IsNew(mem, a, v, st')
  {
  }

  lemma {:induction false} ComputeFresh(mem: Memory, a: Addr, st: State)
    requires Fresh(mem, st) && a in mem
    ensures var (v, st') := Compute(mem, a, st); Fresh(mem, st') && IsNew(mem, a, v, st')
    decreases mem.Keys - st.cache.Keys, 2, 0
  {
    hide Fresh;
    hide IsNew;
    hide Decode;
    NoneIsNew(mem, a);
    match mem[a]
    case Simple(name) => LastIsNew(mem, a, st, Ty(BasicS(name), []));
    case Func(params) =>
      DecodeAllFresh(mem, params, st);
      LastIsNew(mem, a, DecodeAll(mem, params, st).1, Ty(BasicS("funcptr"), []));
    case Interface(methods) =>
      DecodeAllFresh(mem, methods, st);
      LastIsNew(mem, a, st, Ty(BasicS("any"), []));
      LastIsNew(mem, a, DecodeAll(mem, methods, st).1, Ty(BasicS("interface"), []));
    case Array(elem, len) => WrapFresh(mem, a, elem, st, ArrayS(len));
    case Slice(elem) => WrapFresh(mem, a, elem, st, SliceS);
    case Pointer(elem) => WrapFresh(mem, a, elem, st, PointerS);
    case Map(key, val) => MapFresh(mem, a, st);
    case Struct(fields, size, align) =>
      DecodeAllFresh(mem, FieldTypes(fields), st);
      var (vals, st1) := DecodeAll(mem, FieldTypes(fields), st);
      LastIsNew(mem, a, st1, Ty(StructShape(Sorted(fields), size, align), StructComps(fields, vals)));
    case Unsupported =>
  }

  lemma {:induction false} WrapFresh(mem: Memory, a: Addr, elem: Addr, st: State, shape: Shape)
    requires Fresh(mem, st) && a in mem && !mem[a].Map?
    ensures var (v, st1) := Decode(mem, elem, st);
            var (w, st2) := Alloc(st1, Ty(shape, [v]));
            Fresh(mem, st1) && Fresh(mem, st2) && IsNew(mem, a, w, st2)
    decreases mem.Keys - st.cache.Keys, 1, 0
  {
    hide Fresh;
    DecodeFresh(mem, elem, st);
    LastIsNew(mem, a, Decode(mem, elem, st).1, Ty(shape, [Decode(mem, elem, st).0]));
  }

  lemma {:induction false} MapFresh(mem: Memory, a: Addr, st: State)
    requires Fresh(mem, st) && a in mem && mem[a].Map?
    ensures var (v, st') := Compute(mem, a, st); Fresh(mem, st') && IsNew(mem, a, v, st')
    decreases mem.Keys - st.cache.Keys, 1, 0
  {
    hide Fresh;
    hide IsNew;
    hide Decode;
    NoneIsNew(mem, a);
    DecodeFresh(mem, mem[a].key, st);
    var (k, st1) := Decode(mem, mem[a].key, st);
    DecodeFresh(mem, mem[a].val, st1);
    var (v, st2) := Decode(mem, mem[a].val, st1);
    AllocFresh(mem, st2, MapO(k, v));
    var (m, st3) := Alloc(st2, MapO(k, v));
    LastIsNew(mem, a, st3, Ty(PointerS, [m]));
  }

  lemma NoneIsNew(mem: Memory, a: Addr)
    ensures forall st :: IsNew(mem, a, NoneV, st)
  {
  }

  /** From the start, no two types share an object. */
  lemma DecodedFresh(mem: Memory, a: Addr)
    ensures Fresh(mem, Decode(mem, a, EMPTY).1)
  {
    DecodeFresh(mem, a, EMPTY);
  }
}
