/**
  Decoding of Go reflection types: the recursive decoder with its cache of
  placeholders, up to the point where the placeholders are still in place
  (pwndbg/aglib/godbg.py:544-763).

  Memory is a finite map from a type's address to what its header and trailer
  say.  Python objects live in a store and are named by their index in it, so
  that sharing and later mutation are visible.
 */
module GoDecode {
  type Addr = nat

  datatype FieldDesc = FieldDesc(name: string, ty: Addr, off: nat)

  /** What memory says about a type. */
  datatype Desc =
    | Simple(name: string)
    | Func(params: seq<Addr>)
    | Interface(methods: seq<Addr>)
    | Array(elem: Addr, len: nat)
    | Slice(elem: Addr)
    | Pointer(elem: Addr)
    | Map(key: Addr, val: Addr)
    | Struct(fields: seq<FieldDesc>, size: nat, align: nat)
    | Unsupported  // channels

  /** An address outside the map holds no valid kind (GoTypeKind.INVALID). */
  type Memory = map<Addr, Desc>

  datatype Shape =
    | BasicS(name: string)
    | SliceS
    | PointerS
    | ArrayS(len: nat)
    | MapS
    | StructS(fields: seq<(string, nat)>, size: nat, align: nat)

  /** A Python value held in a type object: None, a bare type name, or an object. */
  datatype Val = NoneV | NameOnly | Ref(r: nat)

  /**
    A type object.  A map object has two attributes; every other object keeps
    its component types in one attribute (for a struct, one list).
   */
  datatype Obj =
    | Backref(key: Addr)
    | MapO(keyType: Val, valType: Val)
    | Ty(shape: Shape, comps: seq<Val>)

  function Kids(o: Obj): seq<Val> {
    match o
    case Backref(_) => []
    case MapO(k, v) => [k, v]
    case Ty(_, comps) => comps
  }

  function ShapeOf(o: Obj): Shape
    requires !o.Backref?
  {
    if o.MapO? then MapS else o.shape
  }

  datatype State = State(cache: map<Addr, Val>, store: seq<Obj>)

  const EMPTY := State(map[], [])

  // ----- Field order -----

  /** Insert index `x` into a list of indices ordered by offset, after equal ones. */
  function InsertIndex(offs: seq<nat>, order: seq<nat>, x: nat): (res: seq<nat>)
    requires x < |offs| && forall i | 0 <= i < |order| :: order[i] < |offs|
    ensures |res| == |order| + 1
    ensures forall i | 0 <= i < |res| :: res[i] < |offs|
    ensures x in res && forall y | y in order :: y in res
  {
    if order == [] || offs[order[|order| - 1]] <= offs[x] then order + [x]
    else
      var rest := InsertIndex(offs, order[..|order| - 1], x);
      assert order == order[..|order| - 1] + [order[|order| - 1]];
      rest + [order[|order| - 1]]
  }

  /** The stable order of the fields by offset: the first `n` indices, sorted. */
  function FieldOrder(offs: seq<nat>, n: nat): (res: seq<nat>)
    requires n <= |offs|
    ensures |res| == n
    ensures forall i | 0 <= i < n :: res[i] < |offs|
    ensures forall y: nat | y < n :: y in res
  {
    if n == 0 then [] else InsertIndex(offs, FieldOrder(offs, n - 1), n - 1)
  }

  function Sorted(fields: seq<FieldDesc>): (res: seq<FieldDesc>)
    ensures |res| == |fields|
    ensures forall i | 0 <= i < |res| :: res[i] in fields
    ensures forall f | f in fields :: f in res
  {
    var order := FieldOrder(Offsets(fields), |fields|);
    var res := seq(|fields|, i requires 0 <= i < |fields| => fields[order[i]]);
    assert forall f | f in fields :: f in res by {
      forall f | f in fields ensures f in res {
        var y: nat :| y < |fields| && fields[y] == f;
        assert y in order;
        var i :| 0 <= i < |order| && order[i] == y;
        assert res[i] == f;
      }
    }
    res
  }

  function Offsets(fields: seq<FieldDesc>): seq<nat> {
    seq(|fields|, i requires 0 <= i < |fields| => fields[i].off)
  }

  function FieldTypes(fields: seq<FieldDesc>): (res: seq<Addr>)
  {
    seq(|fields|, i requires 0 <= i < |fields| => fields[i].ty)
  }

  function StructShape(fields: seq<FieldDesc>, size: nat, align: nat): Shape {
    StructS(seq(|fields|, i requires 0 <= i < |fields| => (fields[i].name, fields[i].off)), size, align)
  }

  // ----- The decoder -----

  function Alloc(st: State, o: Obj): (Val, State) {
    (Ref(|st.store|), st.(store := st.store + [o]))
  }

  /** `new` keeps every cache entry and every object of `earlier`. */
  ghost predicate Grows(earlier: State, later: State) {
    && earlier.store <= later.store
    && forall k | k in earlier.cache :: k in later.cache && later.cache[k] == earlier.cache[k]
  }

  /** The value a struct stores for a decoded field: a failed one keeps only its name. */
  function FieldVal(v: Val): Val {
    if v.NoneV? then NameOnly else v
  }

  function Decode(mem: Memory, a: Addr, st: State): (res: (Val, State))
    ensures Grows(st, res.1)
    decreases mem.Keys - st.cache.Keys, 0, 0
  {
    if a in st.cache then (st.cache[a], st)
    else if a !in mem then (NoneV, st)
    else
      var st1 := State(st.cache[a := Ref(|st.store|)], st.store + [Backref(a)]);
      assert a in mem.Keys - st.cache.Keys && a !in mem.Keys - st1.cache.Keys;
      var (v, st2) := Compute(mem, a, st1);
      (v, State(st2.cache[a := v], st2.store))
  }

  function Compute(mem: Memory, a: Addr, st: State): (res: (Val, State))
    requires a in mem
    ensures Grows(st, res.1)
    decreases mem.Keys - st.cache.Keys, 2, 0
  {
    match mem[a]
    case Simple(name) => Alloc(st, Ty(BasicS(name), []))
    case Func(params) =>
      var (_, st1) := DecodeAll(mem, params, st);
      Alloc(st1, Ty(BasicS("funcptr"), []))
    case Interface(methods) =>
      if methods == [] then Alloc(st, Ty(BasicS("any"), []))
      else
        var (_, st1) := DecodeAll(mem, methods, st);
        Alloc(st1, Ty(BasicS("interface"), []))
    case Array(elem, len) =>
      var (v, st1) := Decode(mem, elem, st);
      if v.NoneV? then (NoneV, st1) else Alloc(st1, Ty(ArrayS(len), [v]))
    case Slice(elem) =>
      var (v, st1) := Decode(mem, elem, st);
      if v.NoneV? then (NoneV, st1) else Alloc(st1, Ty(SliceS, [v]))
    case Pointer(elem) =>
      var (v, st1) := Decode(mem, elem, st);
      if v.NoneV? then (NoneV, st1) else Alloc(st1, Ty(PointerS, [v]))
    case Map(key, val) =>
      var (k, st1) := Decode(mem, key, st);
      if k.NoneV? then (NoneV, st1)
      else
        var (v, st2) := Decode(mem, val, st1);
        if v.NoneV? then (NoneV, st2)
        else
          var (m, st3) := Alloc(st2, MapO(k, v));
          Alloc(st3, Ty(PointerS, [m]))
    case Struct(fields, size, align) =>
      var (vals, st1) := DecodeAll(mem, FieldTypes(fields), st);
      Alloc(st1, Ty(StructShape(Sorted(fields), size, align), StructComps(fields, vals)))
    case Unsupported => (NoneV, st)
  }

  /** The field values of a struct, in the order of the sorted fields. */
  function StructComps(fields: seq<FieldDesc>, vals: seq<Val>): (res: seq<Val>)
    requires |vals| == |fields|
  {
    var order := FieldOrder(Offsets(fields), |fields|);
    seq(|fields|, i requires 0 <= i < |fields| => FieldVal(vals[order[i]]))
  }

  function DecodeAll(mem: Memory, addrs: seq<Addr>, st: State): (res: (seq<Val>, State))
    ensures |res.0| == |addrs|
    ensures Grows(st, res.1)
    decreases mem.Keys - st.cache.Keys, 1, |addrs|
  {
    if addrs == [] then ([], st)
    else
      var (v, st1) := Decode(mem, addrs[0], st);
      var (vs, st2) := DecodeAll(mem, addrs[1..], st1);
      ([v] + vs, st2)
  }
}
