/**
  Reading decoded types as trees.  A type graph with cycles is compared by its
  unfoldings: two graphs agree when they unfold alike to every depth.
 */
module GoUnfold {
  import opened GoDecode
  import opened GoDecodeProofs

  datatype Tree = Cut | NoneT | NameT | Placeholder(key: Addr) | Node(shape: Shape, kids: seq<Tree>)

  /** The type graph in memory, unfolded to depth `n`; a field whose type fails is only a name. */
  ghost function MemTree(mem: Memory, a: Addr, n: nat): Tree
    decreases n, 0
  {
    if n == 0 then Cut
    else if a !in mem || Failing(mem, a) then NoneT
    else
      match mem[a]
      case Simple(name) => Node(BasicS(name), [])
      case Func(_) => Node(BasicS("funcptr"), [])
      case Interface(methods) => Node(BasicS(if methods == [] then "any" else "interface"), [])
      case Array(elem, len) => Node(ArrayS(len), [MemTree(mem, elem, n - 1)])
      case Slice(elem) => Node(SliceS, [MemTree(mem, elem, n - 1)])
      case Pointer(elem) => Node(PointerS, [MemTree(mem, elem, n - 1)])
      case Map(key, val) =>
        Node(PointerS, [if n == 1 then Cut else Node(MapS, [MemTree(mem, key, n - 2), MemTree(mem, val, n - 2)])])
      case Struct(fields, size, align) =>
        Node(StructShape(Sorted(fields), size, align),
             seq(|fields|, i requires 0 <= i < |fields| => FieldTree(mem, Sorted(fields)[i].ty, n - 1)))
      case Unsupported => NoneT
  }

  ghost function FieldTree(mem: Memory, a: Addr, n: nat): Tree
    decreases n, 1
  {
    if n > 0 && Failing(mem, a) then NameT else MemTree(mem, a, n)
  }

  /** The object graph as it stands: placeholders are leaves. */
  function PlainTree(store: seq<Obj>, v: Val, n: nat): Tree
    decreases n
  {
    if n == 0 then Cut
    else
      match v
      case NoneV => NoneT
      case NameOnly => NameT
      case Ref(r) =>
        if r >= |store| then NoneT
        else if store[r].Backref? then Placeholder(store[r].key)
        else
          var kids := Kids(store[r]);
          Node(ShapeOf(store[r]), seq(|kids|, i requires 0 <= i < |kids| => PlainTree(store, kids[i], n - 1)))
  }

  /** What a placeholder is to be replaced by. */
  function Resolve(cache: map<Addr, Val>, store: seq<Obj>, v: Val): Val {
    if v.Ref? && v.r < |store| && store[v.r].Backref? && store[v.r].key in cache then cache[store[v.r].key] else v
  }

  /** The object graph read through its placeholders. */
  function GraphTree(st: State, v: Val, n: nat): Tree
    decreases n
  {
    if n == 0 then Cut
    else
      match Resolve(st.cache, st.store, v)
      case NoneV => NoneT
      case NameOnly => NameT
      case Ref(r) =>
        if r >= |st.store| then NoneT
        else if st.store[r].Backref? then Placeholder(st.store[r].key)
        else
          var kids := Kids(st.store[r]);
          Node(ShapeOf(st.store[r]), seq(|kids|, i requires 0 <= i < |kids| => GraphTree(st, kids[i], n - 1)))
  }

  lemma ResolveRepresents(mem: Memory, good: set<Addr>, st: State, v: Val, a: Addr)
    requires Good(mem, good) && Inv(mem, good, st, {}) && a in good && Represents(st, v, a)
    ensures IsType(st.store, Resolve(st.cache, st.store, v))
    ensures Matches(mem, mem[a], st, st.store[Resolve(st.cache, st.store, v).r])
  {
    assert AgreesAt(mem, st, a);
  }

  lemma {:induction false} RepresentsUnfolds(mem: Memory, good: set<Addr>, st: State, v: Val, a: Addr, n: nat)
    requires Good(mem, good) && Inv(mem, good, st, {}) && a in good && Represents(st, v, a)
    ensures GraphTree(st, v, n) == MemTree(mem, a, n)
    decreases n, 1
  {
    if n > 0 {
      ResolveRepresents(mem, good, st, v, a);
      MatchesUnfolds(mem, good, st, st.store[Resolve(st.cache, st.store, v).r], a, n);
    }
  }

  /** The tree of object `o`, one level unrolled. */
  function ObjTree(st: State, o: Obj, n: nat): Tree
    requires n > 0 && !o.Backref?
  {
    Node(ShapeOf(o), seq(|Kids(o)|, i requires 0 <= i < |Kids(o)| => GraphTree(st, Kids(o)[i], n - 1)))
  }

  lemma ObjTreeIs(st: State, o: Obj, n: nat, kids: seq<Tree>)
    requires n > 0 && !o.Backref? && |kids| == |Kids(o)|
    requires forall i | 0 <= i < |kids| :: kids[i] == GraphTree(st, Kids(o)[i], n - 1)
    ensures ObjTree(st, o, n) == Node(ShapeOf(o), kids)
  {
  }

  lemma {:induction false} MatchesUnfolds(mem: Memory, good: set<Addr>, st: State, o: Obj, a: Addr, n: nat)
    requires Good(mem, good) && Inv(mem, good, st, {}) && a in good && Matches(mem, mem[a], st, o)
    requires n > 0
    ensures !o.Backref? && ObjTree(st, o, n) == MemTree(mem, a, n)
    decreases n, 0
  {
    GoodNotFailing(mem, good, a);
    hide Inv;
    hide Good;
    hide Failing;
    hide GraphTree;
    match mem[a]
    case Simple(_) => ObjTreeIs(st, o, n, []);
    case Func(_) => ObjTreeIs(st, o, n, []);
    case Interface(_) => ObjTreeIs(st, o, n, []);
    case Array(elem, _) => WrapUnfolds(mem, good, st, o, a, elem, n);
    case Slice(elem) => WrapUnfolds(mem, good, st, o, a, elem, n);
    case Pointer(elem) => WrapUnfolds(mem, good, st, o, a, elem, n);
    case Map(_, _) => PointedMapUnfolds(mem, good, st, o, a, n);
    case Struct(_, _, _) => StructUnfolds(mem, good, st, o, a, n);
  }

  lemma {:induction false} PointedMapUnfolds(mem: Memory, good: set<Addr>, st: State, o: Obj, a: Addr, n: nat)
    requires Good(mem, good) && Inv(mem, good, st, {}) && a in good && a in mem && mem[a].Map? && Matches(mem, mem[a], st, o)
    requires n > 0 && !Failing(mem, a)
    ensures !o.Backref? && ObjTree(st, o, n) == MemTree(mem, a, n)
    decreases n - 1, 3
  {
    hide Inv;
    hide Good;
    hide Failing;
    if n > 1 {
      MapUnfolds(mem, good, st, o.comps[0], a, n - 1);
    }
    ObjTreeIs(st, o, n, MemTree(mem, a, n).kids);
  }

  lemma {:induction false} StructUnfolds(mem: Memory, good: set<Addr>, st: State, o: Obj, a: Addr, n: nat)
    requires Good(mem, good) && Inv(mem, good, st, {}) && a in good && a in mem && mem[a].Struct? && Matches(mem, mem[a], st, o)
    requires n > 0 && !Failing(mem, a)
    ensures !o.Backref? && ObjTree(st, o, n) == MemTree(mem, a, n)
    decreases n - 1, 3
  {
    hide Inv;
    hide Good;
    hide Failing;
    hide Sorted;
    hide StructShape;
    hide FieldMatches;
    hide GraphTree;
    var fields := mem[a].fields;
    forall i | 0 <= i < |fields|
      ensures GraphTree(st, o.comps[i], n - 1) == FieldTree(mem, Sorted(fields)[i].ty, n - 1)
    {
      FieldUnfolds(mem, good, st, o.comps[i], a, i, n);
    }
    ObjTreeIs(st, o, n, MemTree(mem, a, n).kids);
  }

  lemma SortedFieldGood(mem: Memory, good: set<Addr>, a: Addr, i: nat)
    requires Good(mem, good) && a in good && mem[a].Struct? && i < |mem[a].fields|
    requires !Failing(mem, Sorted(mem[a].fields)[i].ty)
    ensures Sorted(mem[a].fields)[i].ty in good
  {
    var fields := mem[a].fields;
    var f := Sorted(fields)[i];
    assert f in fields;
    var y: nat :| y < |fields| && fields[y] == f;
    GoodParts(mem, good, a);
    assert Parts(mem[a])[y] == FieldTypes(fields)[y] == f.ty;
  }

  lemma {:induction false} FieldUnfolds(mem: Memory, good: set<Addr>, st: State, v: Val, a: Addr, i: nat, n: nat)
    requires Good(mem, good) && Inv(mem, good, st, {}) && a in good && mem[a].Struct? && n > 0
    requires i < |mem[a].fields| && FieldMatches(mem, st, v, Sorted(mem[a].fields)[i].ty)
    ensures GraphTree(st, v, n - 1) == FieldTree(mem, Sorted(mem[a].fields)[i].ty, n - 1)
    decreases n - 1, 2
  {
    hide Inv;
    if !Failing(mem, Sorted(mem[a].fields)[i].ty) {
      SortedFieldGood(mem, good, a, i);
      RepresentsUnfolds(mem, good, st, v, Sorted(mem[a].fields)[i].ty, n - 1);
    }
  }

  lemma {:induction false} WrapUnfolds(mem: Memory, good: set<Addr>, st: State, o: Obj, a: Addr, elem: Addr, n: nat)
    requires Good(mem, good) && Inv(mem, good, st, {}) && a in good && n > 0
    requires Parts(mem[a]) == [elem] && !mem[a].Struct? && o.Ty? && |o.comps| == 1 && Represents(st, o.comps[0], elem)
    ensures ObjTree(st, o, n) == Node(o.shape, [MemTree(mem, elem, n - 1)])
    decreases n - 1, 2
  {
    hide Inv;
    GoodParts(mem, good, a);
    assert Parts(mem[a])[0] == elem;
    RepresentsUnfolds(mem, good, st, o.comps[0], elem, n - 1);
    ObjTreeIs(st, o, n, [MemTree(mem, elem, n - 1)]);
  }

  lemma {:induction false} MapUnfolds(mem: Memory, good: set<Addr>, st: State, v: Val, a: Addr, n: nat)
    requires Good(mem, good) && Inv(mem, good, st, {}) && a in good && mem[a].Map? && n > 0
    requires IsType(st.store, v) && st.store[v.r].MapO?
    requires Represents(st, st.store[v.r].keyType, mem[a].key) && Represents(st, st.store[v.r].valType, mem[a].val)
    ensures GraphTree(st, v, n) == Node(MapS, [MemTree(mem, mem[a].key, n - 1), MemTree(mem, mem[a].val, n - 1)])
    decreases n - 1, 2
  {
    hide Inv;
    var m := st.store[v.r];
    assert Kids(m) == [m.keyType, m.valType];
    GoodParts(mem, good, a);
    assert Parts(mem[a])[0] == mem[a].key && Parts(mem[a])[1] == mem[a].val;
    RepresentsUnfolds(mem, good, st, m.keyType, mem[a].key, n - 1);
    RepresentsUnfolds(mem, good, st, m.valType, mem[a].val, n - 1);
  }

  /** The empty decoder state satisfies the invariant. */
  lemma EmptyInv(mem: Memory, good: set<Addr>)
    ensures Inv(mem, good, EMPTY, {})
  {
  }

  /** After the outermost call no cache entry is a placeholder, and every address was computed at most once. */
  lemma DecoderSettles(mem: Memory, a: Addr)
    ensures var (v, st) := Decode(mem, a, EMPTY);
            && (v.NoneV? || IsType(st.store, v))
            && (forall k | k in st.cache :: st.cache[k].NoneV? || IsType(st.store, st.cache[k]))
            && (forall i, j | 0 <= i < |st.store| && 0 <= j < |st.store| && st.store[i].Backref? && st.store[i] == st.store[j] :: i == j)
            && (forall i | 0 <= i < |st.store| && st.store[i].Backref? :: st.store[i].key in st.cache)
  {
    EmptyInv(mem, {});
    DecodeInv(mem, {}, a, EMPTY, {});
  }

  /** A failing type decodes to None. */
  lemma FailingIsNone(mem: Memory, a: Addr)
    requires Failing(mem, a)
    ensures Decode(mem, a, EMPTY).0.NoneV?
  {
    EmptyInv(mem, {});
    DecodeInv(mem, {}, a, EMPTY, {});
  }

  /**
    When nothing stored inside the type fails to decode, except in fields of
    structs, the decoded graph unfolds to every depth as memory does, with the
    bare names of those fields.
   */
  lemma DecodeFaithful(mem: Memory, good: set<Addr>, a: Addr, n: nat)
    requires Good(mem, good) && a in good
    ensures var (v, st) := Decode(mem, a, EMPTY);
            IsType(st.store, v) && GraphTree(st, v, n) == MemTree(mem, a, n)
  {
    EmptyInv(mem, good);
    DecodeInv(mem, good, a, EMPTY, {});
    var (v, st) := Decode(mem, a, EMPTY);
    RepresentsUnfolds(mem, good, st, v, a, n);
  }
}
