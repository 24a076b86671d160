/**
  What every decoded object says about its type in memory, one level deep
  (pwndbg/aglib/godbg.py:571-763), in terms of the memory entry alone.
 */
module GoShapes {
  import opened GoDecode
  import opened GoDecodeProofs
  import opened GoUnfold

  // ----- The order of struct fields -----

  /** Every field once, by offset, and fields with the same offset in memory's order. */
  ghost predicate ByOffset(fields: seq<FieldDesc>, order: seq<nat>) {
    && |order| == |fields|
    && (forall i | 0 <= i < |order| :: order[i] < |fields|)
    && (forall y: nat | y < |fields| :: y in order)
    && (forall i, j | 0 <= i < j < |order| :: Before(fields, order[i], order[j]))
  }

  predicate Before(fields: seq<FieldDesc>, x: nat, y: nat) {
    x < |fields| && y < |fields| && (fields[x].off < fields[y].off || (fields[x].off == fields[y].off && x < y))
  }

  predicate OffsetBefore(offs: seq<nat>, x: nat, y: nat) {
    x < |offs| && y < |offs| && (offs[x] < offs[y] || (offs[x] == offs[y] && x < y))
  }

  ghost predicate InOffsetOrder(offs: seq<nat>, order: seq<nat>) {
    forall i, j | 0 <= i < j < |order| :: OffsetBefore(offs, order[i], order[j])
  }

  lemma OrderedFront(offs: seq<nat>, order: seq<nat>)
    requires order != [] && InOffsetOrder(offs, order)
    ensures InOffsetOrder(offs, order[..|order| - 1])
    ensures var front := order[..|order| - 1]; forall y | y in front :: OffsetBefore(offs, y, order[|order| - 1])
  {
    var front := order[..|order| - 1];
    forall y | y in front ensures OffsetBefore(offs, y, order[|order| - 1]) {
      var i :| 0 <= i < |front| && front[i] == y;
      assert order[i] == y;
    }
  }

  lemma OrderedMore(offs: seq<nat>, order: seq<nat>, last: nat)
    requires InOffsetOrder(offs, order) && forall y | y in order :: OffsetBefore(offs, y, last)
    ensures InOffsetOrder(offs, order + [last])
  {
  }

  /** Inserting an index behind all smaller ones keeps the order. */
  lemma {:induction false} InsertOrdered(offs: seq<nat>, order: seq<nat>, x: nat)
    requires x < |offs| && (forall i | 0 <= i < |order| :: order[i] < x) && InOffsetOrder(offs, order)
    ensures InOffsetOrder(offs, InsertIndex(offs, order, x))
    ensures forall y | y in InsertIndex(offs, order, x) :: y == x || y in order
    ensures forall i | 0 <= i <= |order| :: InsertIndex(offs, order, x)[i] <= x
    decreases |order|
  {
    if order == [] {
    } else if offs[order[|order| - 1]] <= offs[x] {
      OrderedFront(offs, order);
      var last := order[|order| - 1];
      assert order == order[..|order| - 1] + [last];
      OrderedMore(offs, order, x);
    } else {
      var front, last := order[..|order| - 1], order[|order| - 1];
      OrderedFront(offs, order);
      InsertOrdered(offs, front, x);
      OrderedMore(offs, InsertIndex(offs, front, x), last);
    }
  }

  lemma {:induction false} OrderOrdered(offs: seq<nat>, n: nat)
    requires n <= |offs|
    ensures InOffsetOrder(offs, FieldOrder(offs, n)) && forall i | 0 <= i < n :: FieldOrder(offs, n)[i] < n
    decreases n
  {
    hide *;
    if n > 0 {
      OrderOrdered(offs, n - 1);
      OrderStep(offs, n);
      InsertOrdered(offs, FieldOrder(offs, n - 1), n - 1);
    } else {
      OrderedNone(offs, FieldOrder(offs, n));
    }
  }

  lemma OrderedNone(offs: seq<nat>, order: seq<nat>)
    requires order == []
    ensures InOffsetOrder(offs, order)
  {
  }

  lemma OrderStep(offs: seq<nat>, n: nat)
    requires 0 < n <= |offs|
    ensures FieldOrder(offs, n) == InsertIndex(offs, FieldOrder(offs, n - 1), n - 1)
  {
    hide InsertIndex;
  }

  lemma OrderByOffset(fields: seq<FieldDesc>)
    ensures ByOffset(fields, FieldOrder(Offsets(fields), |fields|))
  {
    var offs := Offsets(fields);
    var order := FieldOrder(offs, |fields|);
    OrderOrdered(offs, |fields|);
    forall i, j | 0 <= i < j < |order| ensures Before(fields, order[i], order[j]) {
      assert OffsetBefore(offs, order[i], order[j]);
    }
  }

  // ----- One level of every type -----

  /** Nothing was decoded for the type at `a`. */
  ghost predicate Absent(mem: Memory, st: State, a: Addr) {
    a !in mem || (a in st.cache && st.cache[a].NoneV?)
  }

  /** What a struct keeps of a field: the type, or its name alone. */
  ghost predicate FieldOf(mem: Memory, st: State, v: Val, a: Addr) {
    if v.NameOnly? then Absent(mem, st, a) else Represents(st, v, a)
  }

  /** The fields of a struct, by offset, and component by component. */
  ghost predicate Lists(mem: Memory, st: State, shown: seq<(string, nat)>, comps: seq<Val>, fields: seq<FieldDesc>, order: seq<nat>) {
    && ByOffset(fields, order) && |shown| == |comps| == |fields|
    && forall i | 0 <= i < |fields| :: ListsAt(mem, st, shown[i], comps[i], fields[order[i]])
  }

  ghost predicate ListsAt(mem: Memory, st: State, shown: (string, nat), v: Val, f: FieldDesc) {
    shown == (f.name, f.off) && FieldOf(mem, st, v, f.ty)
  }

  ghost predicate Holds(st: State, o: Obj, shape: Shape, elem: Addr) {
    o.Ty? && o.shape == shape && |o.comps| == 1 && Represents(st, o.comps[0], elem)
  }

  ghost predicate Describes(mem: Memory, d: Desc, st: State, o: Obj) {
    match d
    case Simple(name) => o == Ty(BasicS(name), [])
    case Func(_) => o == Ty(BasicS("funcptr"), [])
    case Interface(methods) => if methods == [] then o == Ty(BasicS("any"), []) else o == Ty(BasicS("interface"), [])
    case Array(elem, len) => Holds(st, o, ArrayS(len), elem)
    case Slice(elem) => Holds(st, o, SliceS, elem)
    case Pointer(elem) => Holds(st, o, PointerS, elem)
    case Map(key, val) =>
      && o.Ty? && o.shape == PointerS && |o.comps| == 1 && IsType(st.store, o.comps[0])
      && var m := st.store[o.comps[0].r]; m.MapO? && Represents(st, m.keyType, key) && Represents(st, m.valType, val)
    case Struct(fields, size, align) =>
      && o.Ty? && o.shape.StructS? && o.shape.size == size && o.shape.align == align
      && exists order :: Lists(mem, st, o.shape.fields, o.comps, fields, order)
    case Unsupported => false
  }

  /** Why nothing was decoded. */
  ghost predicate HasNoType(mem: Memory, d: Desc, st: State) {
    match d
    case Array(elem, _) => Absent(mem, st, elem)
    case Slice(elem) => Absent(mem, st, elem)
    case Pointer(elem) => Absent(mem, st, elem)
    case Map(key, val) => Absent(mem, st, key) || Absent(mem, st, val)
    case Unsupported => true
    case _ => false
  }

  /** The entry of `k`: a placeholder while it is decoded, nothing for a reason, or an object that describes memory. */
  ghost predicate EntryOk(mem: Memory, st: State, k: Addr)
    requires k in st.cache
  {
    && k in mem
    && (IsBackref(st.store, st.cache[k], k)
        || (st.cache[k].NoneV? && HasNoType(mem, mem[k], st))
        || (IsType(st.store, st.cache[k]) && Describes(mem, mem[k], st, st.store[st.cache[k].r])))
  }

  ghost predicate EntriesOk(mem: Memory, st: State) {
    forall k {:trigger EntryOk(mem, st, k)} | k in st.cache :: EntryOk(mem, st, k)
  }

  /** What a call returns for the type at `a`. */
  ghost predicate Returned(mem: Memory, st: State, v: Val, a: Addr) {
    if v.NoneV? then Absent(mem, st, a) else Represents(st, v, a)
  }

  // ----- Later states say the same -----

  lemma AbsentGrows(mem: Memory, earlier: State, later: State, a: Addr, x: Addr)
    requires Grows(earlier, later) || GrowsBut(earlier, later, x)
    requires Absent(mem, earlier, a)
    ensures Absent(mem, later, a)
  {
  }

  lemma ListsGrows(mem: Memory, earlier: State, later: State, shown: seq<(string, nat)>, comps: seq<Val>, fields: seq<FieldDesc>, order: seq<nat>, x: Addr)
    requires Grows(earlier, later) || GrowsBut(earlier, later, x)
    requires Lists(mem, earlier, shown, comps, fields, order)
    ensures Lists(mem, later, shown, comps, fields, order)
  {
    hide Grows;
    hide GrowsBut;
    assert |order| == |fields| && forall i | 0 <= i < |order| :: order[i] < |fields|;
    hide ByOffset;
    hide Represents;
    hide Absent;
    forall i | 0 <= i < |fields| ensures ListsAt(mem, later, shown[i], comps[i], fields[order[i]]) {
      assert ListsAt(mem, earlier, shown[i], comps[i], fields[order[i]]);
      if comps[i].NameOnly? {
        AbsentGrows(mem, earlier, later, fields[order[i]].ty, x);
      } else {
        RepresentsGrows(earlier, later, comps[i], fields[order[i]].ty, x);
      }
    }
  }

  lemma DescribesGrows(mem: Memory, d: Desc, earlier: State, later: State, o: Obj, x: Addr)
    requires Grows(earlier, later) || GrowsBut(earlier, later, x)
    requires Describes(mem, d, earlier, o)
    ensures Describes(mem, d, later, o)
  {
    if d.Struct? {
      var order :| Lists(mem, earlier, o.shape.fields, o.comps, d.fields, order);
      ListsGrows(mem, earlier, later, o.shape.fields, o.comps, d.fields, order, x);
    }
    hide Lists;
  }

  lemma NoTypeGrows(mem: Memory, d: Desc, earlier: State, later: State, x: Addr)
    requires Grows(earlier, later) || GrowsBut(earlier, later, x)
    requires HasNoType(mem, d, earlier)
    ensures HasNoType(mem, d, later)
  {
    hide Absent;
    match d
    case Array(elem, _) => AbsentGrows(mem, earlier, later, elem, x);
    case Slice(elem) => AbsentGrows(mem, earlier, later, elem, x);
    case Pointer(elem) => AbsentGrows(mem, earlier, later, elem, x);
    case Map(key, val) =>
      if Absent(mem, earlier, key) {
        AbsentGrows(mem, earlier, later, key, x);
      } else {
        AbsentGrows(mem, earlier, later, val, x);
      }
    case _ =>
  }

  lemma EntryGrows(mem: Memory, earlier: State, later: State, k: Addr, x: Addr)
    requires Grows(earlier, later) || GrowsBut(earlier, later, x)
    requires k in earlier.cache && k in later.cache && later.cache[k] == earlier.cache[k] && EntryOk(mem, earlier, k)
    ensures EntryOk(mem, later, k)
  {
    hide Describes;
    hide HasNoType;
    if earlier.cache[k].NoneV? {
      NoTypeGrows(mem, mem[k], earlier, later, x);
    } else if IsType(earlier.store, earlier.cache[k]) {
      DescribesGrows(mem, mem[k], earlier, later, earlier.store[earlier.cache[k].r], x);
    }
  }

  lemma EntriesGrow(mem: Memory, st: State, o: Obj)
    requires EntriesOk(mem, st)
    ensures EntriesOk(mem, Alloc(st, o).1)
  {
    hide EntryOk;
    forall k | k in st.cache ensures EntryOk(mem, Alloc(st, o).1, k) {
      assert EntryOk(mem, st, k);
      EntryGrows(mem, st, Alloc(st, o).1, k, 0);
    }
  }

  lemma ReturnedGrows(mem: Memory, earlier: State, later: State, v: Val, a: Addr)
    requires Grows(earlier, later) && Returned(mem, earlier, v, a)
    ensures Returned(mem, later, v, a)
  {
  }

  lemma EnterEntries(mem: Memory, st: State, a: Addr, st1: State)
    requires EntriesOk(mem, st) && a !in st.cache && a in mem
    requires st1 == State(st.cache[a := Ref(|st.store|)], st.store + [Backref(a)])
    ensures EntriesOk(mem, st1) && IsBackref(st1.store, st1.cache[a], a)
  {
    forall k | k in st1.cache ensures EntryOk(mem, st1, k) {
      if k != a {
        assert EntryOk(mem, st, k);
        hide EntryOk;
        EntryGrows(mem, st, st1, k, 0);
      }
    }
  }

  /** What is computed for the type at `a`. */
  ghost predicate Computed(mem: Memory, st: State, v: Val, a: Addr)
    requires a in mem
  {
    || (v.NoneV? && HasNoType(mem, mem[a], st))
    || (IsType(st.store, v) && Describes(mem, mem[a], st, st.store[v.r]))
  }

  lemma LeaveEntries(mem: Memory, st: State, a: Addr, v: Val, st1: State)
    requires EntriesOk(mem, st) && a in mem && a in st.cache && IsBackref(st.store, st.cache[a], a) && Computed(mem, st, v, a)
    requires st1 == State(st.cache[a := v], st.store)
    ensures EntriesOk(mem, st1) && Returned(mem, st1, v, a)
  {
    assert GrowsBut(st, st1, a);
    forall k | k in st1.cache ensures EntryOk(mem, st1, k) {
      if k != a {
        assert EntryOk(mem, st, k);
        hide EntryOk;
        EntryGrows(mem, st, st1, k, a);
      } else {
        hide Describes;
        hide HasNoType;
        if v.NoneV? {
          NoTypeGrows(mem, mem[a], st, st1, a);
        } else {
          DescribesGrows(mem, mem[a], st, st1, st.store[v.r], a);
        }
      }
    }
  }

  // ----- Every call -----

  lemma {:induction false} DecodeDescribes(mem: Memory, a: Addr, st: State)
    requires EntriesOk(mem, st)
    ensures var (v, st') := Decode(mem, a, st); EntriesOk(mem, st') && Returned(mem, st', v, a)
    decreases mem.Keys - st.cache.Keys, 0, 0
  {
    if a in st.cache {
      assert EntryOk(mem, st, a);
    } else if a in mem {
      var st1 := State(st.cache[a := Ref(|st.store|)], st.store + [Backref(a)]);
      assert a in mem.Keys - st.cache.Keys && a !in mem.Keys - st1.cache.Keys;
      EnterEntries(mem, st, a, st1);
      ComputeDescribes(mem, a, st1);
      var (v, st2) := Compute(mem, a, st1);
      hide EntriesOk;
      hide Computed;
      LeaveEntries(mem, st2, a, v, State(st2.cache[a := v], st2.store));
    }
  }

  lemma {:induction false} DecodeAllDescribes(mem: Memory, addrs: seq<Addr>, st: State)
    requires EntriesOk(mem, st)
    ensures var (vs, st') := DecodeAll(mem, addrs, st);
            EntriesOk(mem, st') && forall i | 0 <= i < |addrs| :: Returned(mem, st', vs[i], addrs[i])
    decreases mem.Keys - st.cache.Keys, 1, |addrs|
  {
    hide EntriesOk;
    if addrs != [] {
      DecodeDescribes(mem, addrs[0], st);
      var (v, st1) := Decode(mem, addrs[0], st);
      DecodeAllDescribes(mem, addrs[1..], st1);
      var (vs, st2) := DecodeAll(mem, addrs[1..], st1);
      ReturnedGrows(mem, st1, st2, v, addrs[0]);
      hide Returned;
      hide Decode;
      forall i | 0 <= i < |addrs| ensures Returned(mem, st2, ([v] + vs)[i], addrs[i]) {
        if i > 0 {
          assert addrs[i] == addrs[1..][i - 1] && ([v] + vs)[i] == vs[i - 1];
        }
      }
    }
  }

  lemma {:induction false} ComputeDescribes(mem: Memory, a: Addr, st: State)
    requires EntriesOk(mem, st) && a in mem
    ensures var (v, st') := Compute(mem, a, st); EntriesOk(mem, st') && Computed(mem, st', v, a)
    decreases mem.Keys - st.cache.Keys, 3, 0
  {
    hide EntriesOk;
    hide Computed;
    match mem[a]
    case Simple(_) => LeafDescribes(mem, a, st);
    case Func(_) => LeafDescribes(mem, a, st);
    case Interface(_) => LeafDescribes(mem, a, st);
    case Array(elem, len) => WrapDescribes(mem, a, st, elem, ArrayS(len));
    case Slice(elem) => WrapDescribes(mem, a, st, elem, SliceS);
    case Pointer(elem) => WrapDescribes(mem, a, st, elem, PointerS);
    case Map(_, _) => MapDescribes(mem, a, st);
    case Struct(fields, size, align) =>
      DecodeAllDescribes(mem, FieldTypes(fields), st);
      var (vals, st1) := DecodeAll(mem, FieldTypes(fields), st);
      hide DecodeAll;
      StructDescribes(mem, a, st1, fields, size, align, vals);
    case Unsupported => NothingComputed(mem, a, st);
  }

  lemma NothingComputed(mem: Memory, a: Addr, st: State)
    requires a in mem && HasNoType(mem, mem[a], st)
    ensures Computed(mem, st, NoneV, a)
  {
  }

  lemma {:induction false} LeafDescribes(mem: Memory, a: Addr, st: State)
    requires EntriesOk(mem, st) && a in mem
    requires mem[a].Simple? || mem[a].Func? || mem[a].Interface?
    ensures var (v, st') := Compute(mem, a, st); EntriesOk(mem, st') && Computed(mem, st', v, a)
    decreases mem.Keys - st.cache.Keys, 2, 0
  {
    hide EntriesOk;
    hide DecodeAll;
    match mem[a]
    case Simple(name) => EntriesGrow(mem, st, Ty(BasicS(name), []));
    case Func(params) =>
      DecodeAllDescribes(mem, params, st);
      EntriesGrow(mem, DecodeAll(mem, params, st).1, Ty(BasicS("funcptr"), []));
    case Interface(methods) =>
      if methods == [] {
        EntriesGrow(mem, st, Ty(BasicS("any"), []));
      } else {
        DecodeAllDescribes(mem, methods, st);
        EntriesGrow(mem, DecodeAll(mem, methods, st).1, Ty(BasicS("interface"), []));
      }
  }

  lemma {:induction false} WrapDescribes(mem: Memory, a: Addr, st: State, elem: Addr, shape: Shape)
    requires EntriesOk(mem, st) && a in mem
    requires match mem[a]
             case Array(e, len) => e == elem && shape == ArrayS(len)
             case Slice(e) => e == elem && shape == SliceS
             case Pointer(e) => e == elem && shape == PointerS
             case _ => false
    ensures var (v, st') := Compute(mem, a, st); EntriesOk(mem, st') && Computed(mem, st', v, a)
    decreases mem.Keys - st.cache.Keys, 2, 0
  {
    hide EntriesOk;
    DecodeDescribes(mem, elem, st);
    hide Decode;
    var (v, st1) := Decode(mem, elem, st);
    EntriesGrow(mem, st1, Ty(shape, [v]));
    if !v.NoneV? {
      RepresentsGrows(st1, Alloc(st1, Ty(shape, [v])).1, v, elem, 0);
    }
    hide Represents;
    hide Absent;
  }

  lemma {:induction false} MapDescribes(mem: Memory, a: Addr, st: State)
    requires EntriesOk(mem, st) && a in mem && mem[a].Map?
    ensures var (v, st') := Compute(mem, a, st); EntriesOk(mem, st') && Computed(mem, st', v, a)
    decreases mem.Keys - st.cache.Keys, 2, 0
  {
    hide EntriesOk;
    var key, val := mem[a].key, mem[a].val;
    DecodeDescribes(mem, key, st);
    hide Decode;
    var (k, st1) := Decode(mem, key, st);
    if !k.NoneV? {
      DecodeDescribes(mem, val, st1);
      var (v, st2) := Decode(mem, val, st1);
      if !v.NoneV? {
        RepresentsGrows(st1, st2, k, key, 0);
        MapMade(mem, a, st2, k, v);
      }
    }
    hide Represents;
    hide Absent;
  }

  lemma MapMade(mem: Memory, a: Addr, st: State, k: Val, v: Val)
    requires EntriesOk(mem, st) && a in mem && mem[a].Map? && Represents(st, k, mem[a].key) && Represents(st, v, mem[a].val)
    ensures var (m, st1) := Alloc(st, MapO(k, v));
            var (p, st2) := Alloc(st1, Ty(PointerS, [m]));
            EntriesOk(mem, st2) && Computed(mem, st2, p, a)
  {
    hide EntriesOk;
    EntriesGrow(mem, st, MapO(k, v));
    var (m, st1) := Alloc(st, MapO(k, v));
    EntriesGrow(mem, st1, Ty(PointerS, [m]));
    var (p, st2) := Alloc(st1, Ty(PointerS, [m]));
    RepresentsGrows(st, st2, k, mem[a].key, 0);
    RepresentsGrows(st, st2, v, mem[a].val, 0);
    hide Represents;
  }

  lemma StructDescribes(mem: Memory, a: Addr, st: State, fields: seq<FieldDesc>, size: nat, align: nat, vals: seq<Val>)
    requires EntriesOk(mem, st) && a in mem && mem[a] == Struct(fields, size, align) && |vals| == |fields|
    requires forall i | 0 <= i < |fields| :: Returned(mem, st, vals[i], FieldTypes(fields)[i])
    ensures var (v, st') := Alloc(st, Ty(StructShape(Sorted(fields), size, align), StructComps(fields, vals)));
            EntriesOk(mem, st') && Computed(mem, st', v, a)
  {
    var shape, comps := StructShape(Sorted(fields), size, align), StructComps(fields, vals);
    var order := FieldOrder(Offsets(fields), |fields|);
    OrderByOffset(fields);
    forall i | 0 <= i < |fields| ensures ListsAt(mem, st, shape.fields[i], comps[i], fields[order[i]]) {
      assert Returned(mem, st, vals[order[i]], FieldTypes(fields)[order[i]]);
    }
    assert Lists(mem, st, shape.fields, comps, fields, order);
    hide Lists;
    hide EntriesOk;
    EntriesGrow(mem, st, Ty(shape, comps));
    ListsGrows(mem, st, Alloc(st, Ty(shape, comps)).1, shape.fields, comps, fields, order, 0);
  }

  /**
    After decoding, every type entered has nothing, for a reason that memory
    gives, or an object that describes what memory says, one level deep.
   */
  lemma EveryEntryDescribed(mem: Memory, root: Addr, k: Addr)
    ensures var (v, st) := Decode(mem, root, EMPTY);
            k in st.cache ==>
              && k in mem
              && if st.cache[k].NoneV? then HasNoType(mem, mem[k], st)
                 else IsType(st.store, st.cache[k]) && Describes(mem, mem[k], st, st.store[st.cache[k].r])
  {
    DecodeDescribes(mem, root, EMPTY);
    DecoderSettles(mem, root);
    var (v, st) := Decode(mem, root, EMPTY);
    assert k in st.cache ==> EntryOk(mem, st, k);
    hide Decode;
    hide Describes;
    hide HasNoType;
  }
}
