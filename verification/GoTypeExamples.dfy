/**
  Go types on which decode_runtime_type shows what its conditions are about (pwndbg/aglib/godbg.py:544-763).
 */
module GoTypeExamples {
  import opened GoDecode
  import opened GoDecodeProofs
  import opened GoUnfold
  import opened GoKnot
  import opened GoKnotTrees
  import opened GoKnotExact
  import opened GoRuntimeTypes
  import opened GoNesting
  import opened GoMemoryPaths

  // ----- Single steps of the decoder -----

  function Entered(a: Addr, st: State): State {
    State(st.cache[a := Ref(|st.store|)], st.store + [Backref(a)])
  }

  /** The state after the object of `a` was made. */
  function Made(a: Addr, st: State, o: Obj): State {
    State(st.cache[a := Ref(|st.store|)], st.store + [o])
  }

  lemma WrapStep(mem: Memory, a: Addr, st: State)
    requires a in mem && a !in st.cache && (mem[a].Slice? || mem[a].Pointer?)
    requires !Decode(mem, mem[a].elem, Entered(a, st)).0.NoneV?
    ensures var (v, st1) := Decode(mem, mem[a].elem, Entered(a, st));
            Decode(mem, a, st) == (Ref(|st1.store|), Made(a, st1, Ty(if mem[a].Slice? then SliceS else PointerS, [v])))
  {
  }

  /** Fields already ordered by offset stay in order. */
  lemma {:induction false} InOrder(offs: seq<nat>, n: nat)
    requires n <= |offs| && forall i | 0 <= i < |offs| - 1 :: offs[i] <= offs[i + 1]
    ensures forall i | 0 <= i < n :: FieldOrder(offs, n)[i] == i
    decreases n
  {
    if n > 0 {
      InOrder(offs, n - 1);
    }
  }

  ghost predicate FieldsInOrder(f: seq<FieldDesc>) {
    forall i | 0 <= i < |f| - 1 :: f[i].off <= f[i + 1].off
  }

  /** A struct with its fields in order, whose field types decode to `vs`. */
  lemma StructStep(mem: Memory, a: Addr, st: State, vs: seq<Val>, st1: State)
    requires a in mem && a !in st.cache && mem[a].Struct? && FieldsInOrder(mem[a].fields)
    requires DecodeAll(mem, FieldTypes(mem[a].fields), Entered(a, st)) == (vs, st1)
    ensures |vs| == |mem[a].fields|
    ensures var f := mem[a].fields;
            var o := Ty(StructShape(Sorted(f), mem[a].size, mem[a].align), seq(|vs|, i requires 0 <= i < |vs| => FieldVal(vs[i])));
            Decode(mem, a, st) == (Ref(|st1.store|), Made(a, st1, o))
  {
    hide StructShape;
    hide Sorted;
    hide FieldVal;
    hide DecodeAll;
    var f := mem[a].fields;
    CompsInOrder(f, vs);
    hide StructComps;
  }

  lemma CompsInOrder(f: seq<FieldDesc>, vs: seq<Val>)
    requires |vs| == |f| && FieldsInOrder(f)
    ensures StructComps(f, vs) == seq(|vs|, i requires 0 <= i < |vs| => FieldVal(vs[i]))
  {
    var offs := Offsets(f);
    InOrder(offs, |f|);
    hide FieldOrder;
    hide FieldVal;
  }

  lemma DecodeOne(mem: Memory, a: Addr, st: State)
    ensures DecodeAll(mem, [a], st) == ([Decode(mem, a, st).0], Decode(mem, a, st).1)
  {
    var (v, st1) := Decode(mem, a, st);
    assert DecodeAll(mem, [], st1) == ([], st1);
    DecodeMore(mem, a, [], st);
    assert [a] + [] == [a] && [v] + [] == [v];
  }

  lemma DecodeMore(mem: Memory, a: Addr, addrs: seq<Addr>, st: State)
    ensures var (v, st1) := Decode(mem, a, st);
            var (vs, st2) := DecodeAll(mem, addrs, st1);
            DecodeAll(mem, [a] + addrs, st) == ([v] + vs, st2)
  {
    hide Decode;
    assert ([a] + addrs)[1..] == addrs;
  }

  lemma StructOne(mem: Memory, a: Addr, st: State)
    requires a in mem && a !in st.cache && mem[a].Struct? && |mem[a].fields| == 1
    ensures var f := mem[a].fields;
            var (v, st1) := Decode(mem, f[0].ty, Entered(a, st));
            var o := Ty(StructShape(Sorted(f), mem[a].size, mem[a].align), [FieldVal(v)]);
            Decode(mem, a, st) == (Ref(|st1.store|), Made(a, st1, o))
  {
    hide Decode;
    hide StructShape;
    hide Sorted;
    hide FieldVal;
    var f := mem[a].fields;
    var (v, st1) := Decode(mem, f[0].ty, Entered(a, st));
    DecodeOne(mem, f[0].ty, Entered(a, st));
    assert FieldTypes(f) == [f[0].ty];
    StructStep(mem, a, st, [v], st1);
    assert seq(1, i requires 0 <= i < 1 => FieldVal([v][i])) == [FieldVal(v)];
  }

  lemma StructTwo(mem: Memory, a: Addr, st: State)
    requires a in mem && a !in st.cache && mem[a].Struct? && |mem[a].fields| == 2
    requires FieldsInOrder(mem[a].fields)
    ensures var f := mem[a].fields;
            var (v, st1) := Decode(mem, f[0].ty, Entered(a, st));
            var (w, st2) := Decode(mem, f[1].ty, st1);
            var o := Ty(StructShape(Sorted(f), mem[a].size, mem[a].align), [FieldVal(v), FieldVal(w)]);
            Decode(mem, a, st) == (Ref(|st2.store|), Made(a, st2, o))
  {
    hide Decode;
    hide StructShape;
    hide Sorted;
    hide FieldVal;
    hide DecodeAll;
    var f := mem[a].fields;
    var (v, st1) := Decode(mem, f[0].ty, Entered(a, st));
    var (w, st2) := Decode(mem, f[1].ty, st1);
    DecodeTwo(mem, f[0].ty, f[1].ty, Entered(a, st));
    assert FieldTypes(f) == [f[0].ty, f[1].ty];
    StructStep(mem, a, st, [v, w], st2);
    TwoVals(v, w);
  }

  lemma TwoVals(v: Val, w: Val)
    ensures seq(2, i requires 0 <= i < 2 => FieldVal([v, w][i])) == [FieldVal(v), FieldVal(w)]
  {
    hide FieldVal;
  }

  lemma DecodeTwo(mem: Memory, a: Addr, b: Addr, st: State)
    ensures var (v, st1) := Decode(mem, a, st);
            var (w, st2) := Decode(mem, b, st1);
            DecodeAll(mem, [a, b], st) == ([v, w], st2)
  {
    hide Decode;
    hide DecodeAll;
    var (v, st1) := Decode(mem, a, st);
    DecodeOne(mem, b, st1);
    DecodeMore(mem, a, [b], st);
    assert [a] + [b] == [a, b] && [v] + [Decode(mem, b, st1).0] == [v, Decode(mem, b, st1).0];
  }

  lemma StructThree(mem: Memory, a: Addr, st: State)
    requires a in mem && a !in st.cache && mem[a].Struct? && |mem[a].fields| == 3
    requires FieldsInOrder(mem[a].fields)
    ensures var f := mem[a].fields;
            var (v, st1) := Decode(mem, f[0].ty, Entered(a, st));
            var (w, st2) := Decode(mem, f[1].ty, st1);
            var (x, st3) := Decode(mem, f[2].ty, st2);
            var o := Ty(StructShape(Sorted(f), mem[a].size, mem[a].align), [FieldVal(v), FieldVal(w), FieldVal(x)]);
            Decode(mem, a, st) == (Ref(|st3.store|), Made(a, st3, o))
  {
    hide Decode;
    hide StructShape;
    hide Sorted;
    hide FieldVal;
    hide DecodeAll;
    var f := mem[a].fields;
    var (v, st1) := Decode(mem, f[0].ty, Entered(a, st));
    var (w, st2) := Decode(mem, f[1].ty, st1);
    var (x, st3) := Decode(mem, f[2].ty, st2);
    DecodeThree(mem, f[0].ty, f[1].ty, f[2].ty, Entered(a, st));
    assert FieldTypes(f) == [f[0].ty, f[1].ty, f[2].ty];
    StructStep(mem, a, st, [v, w, x], st3);
    ThreeVals(v, w, x);
  }

  lemma ThreeVals(v: Val, w: Val, x: Val)
    ensures seq(3, i requires 0 <= i < 3 => FieldVal([v, w, x][i])) == [FieldVal(v), FieldVal(w), FieldVal(x)]
  {
    hide FieldVal;
  }

  lemma DecodeThree(mem: Memory, a: Addr, b: Addr, c: Addr, st: State)
    ensures var (v, st1) := Decode(mem, a, st);
            var (w, st2) := Decode(mem, b, st1);
            var (x, st3) := Decode(mem, c, st2);
            DecodeAll(mem, [a, b, c], st) == ([v, w, x], st3)
  {
    hide Decode;
    hide DecodeAll;
    var (v, st1) := Decode(mem, a, st);
    var (w, st2) := Decode(mem, b, st1);
    var (x, st3) := Decode(mem, c, st2);
    DecodeTwo(mem, b, c, st1);
    DecodeMore(mem, a, [b, c], st);
    assert [a] + [b, c] == [a, b, c] && [v] + [w, x] == [v, w, x];
  }

  /** A function type of one argument. */
  lemma FuncStep(mem: Memory, a: Addr, arg: Addr, st: State)
    requires a in mem && a !in st.cache && mem[a] == Func([arg])
    ensures var st1 := Decode(mem, arg, Entered(a, st)).1;
            Decode(mem, a, st) == (Ref(|st1.store|), Made(a, st1, Ty(BasicS("funcptr"), [])))
  {
    DecodeOne(mem, arg, Entered(a, st));
  }

  lemma CachedStep(mem: Memory, a: Addr, st: State)
    requires a in st.cache
    ensures Decode(mem, a, st) == (st.cache[a], st)
  {
  }

  // ----- Fields whose types fail -----

  /** type C struct { c chan int; m map[string]chan int; p *C } */
  const WITH_CHANNEL: Memory := map[
    0 := Struct([FieldDesc("c", 1, 0), FieldDesc("m", 2, 8), FieldDesc("p", 4, 16)], 24, 8),
    1 := Unsupported,
    2 := Map(3, 1),
    3 := Simple("string"),
    4 := Pointer(0)]

  /** Of the channel and of the map only the names are kept; the pointer closes its cycle. */
  lemma ChannelKeptByName()
    ensures var (v, st) := Decode(WITH_CHANNEL, 0, EMPTY);
            var shape := StructShape(WITH_CHANNEL[0].fields, 24, 8);
            GraphTree(st, v, 3) == Node(shape, [NameT, NameT, Node(PointerS, [Node(shape, [Cut, Cut, Cut])])])
  {
    ChannelFails();
    ChannelFields();
    hide *;
    var mem := WITH_CHANNEL;
    DecodeFaithful(mem, {0, 4}, 0, 3);
    GoodNotFailing(mem, {0, 4}, 0);
    GoodNotFailing(mem, {0, 4}, 4);
    ChannelTree(mem, mem[0].fields);
  }

  lemma ChannelFields()
    ensures var mem := WITH_CHANNEL;
            && mem.Keys >= {0, 4} && mem[4] == Pointer(0) && mem[0].Struct? && mem[0] == Struct(mem[0].fields, 24, 8)
            && var f := mem[0].fields;
            && |f| == 3 && f[0].ty == 1 && f[1].ty == 2 && f[2].ty == 4 && FieldsInOrder(f)
  {
  }

  lemma ChannelTree(mem: Memory, f: seq<FieldDesc>)
    requires mem.Keys >= {0, 4} && mem[0] == Struct(f, 24, 8) && mem[4] == Pointer(0)
    requires |f| == 3 && f[0].ty == 1 && f[1].ty == 2 && f[2].ty == 4 && FieldsInOrder(f)
    requires Failing(mem, 1) && Failing(mem, 2) && !Failing(mem, 0) && !Failing(mem, 4)
    ensures var shape := StructShape(f, 24, 8);
            MemTree(mem, 0, 3) == Node(shape, [NameT, NameT, Node(PointerS, [Node(shape, [Cut, Cut, Cut])])])
  {
    StructTree(mem, 0, 3);
    StructTree(mem, 0, 1);
    hide Failing;
    hide StructShape;
    assert MemTree(mem, 4, 2) == Node(PointerS, [MemTree(mem, 0, 1)]);
    assert FieldTree(mem, 4, 2) == MemTree(mem, 4, 2);
    hide MemTree;
    assert FieldTree(mem, 1, 2) == NameT && FieldTree(mem, 2, 2) == NameT;
    NoTree(mem, 1);
    NoTree(mem, 2);
    NoTree(mem, 4);
  }

  lemma NoTree(mem: Memory, a: Addr)
    ensures FieldTree(mem, a, 0) == Cut
  {
  }

  lemma StructTree(mem: Memory, a: Addr, n: nat)
    requires a in mem && mem[a].Struct? && |mem[a].fields| == 3 && FieldsInOrder(mem[a].fields) && !Failing(mem, a) && n > 0
    ensures var f := mem[a].fields;
            MemTree(mem, a, n) == Node(StructShape(f, mem[a].size, mem[a].align),
                                       [FieldTree(mem, f[0].ty, n - 1), FieldTree(mem, f[1].ty, n - 1), FieldTree(mem, f[2].ty, n - 1)])
  {
    var f := mem[a].fields;
    SortedInOrder(f);
    hide Failing;
    hide Sorted;
    hide StructShape;
    hide FieldTree;
    assert seq(3, i requires 0 <= i < 3 => FieldTree(mem, f[i].ty, n - 1))
        == [FieldTree(mem, f[0].ty, n - 1), FieldTree(mem, f[1].ty, n - 1), FieldTree(mem, f[2].ty, n - 1)];
  }

  lemma ChannelFails()
    ensures Good(WITH_CHANNEL, {0, 4}) && Failing(WITH_CHANNEL, 1) && Failing(WITH_CHANNEL, 2)
  {
    var mem := WITH_CHANNEL;
    var good: set<Addr> := {0, 4};
    assert Fails(mem, 1, 1);
    forall n: nat ensures !EntersIn(mem, 3, 2, n) {
      assert Refs(mem[3]) == [];
    }
    assert Fails(mem, 2, 2);
    hide Failing;
    hide Fails;
    assert forall a | a in good :: GoodAt(mem, good, a);
  }

  /** type S struct { f map[S]chan int }: the key of the map leads back to it. */
  const KEY_LEADS_BACK: Memory := map[
    0 := Struct([FieldDesc("f", 1, 0)], 8, 8),
    1 := Map(0, 2),
    2 := Unsupported]

  /**
    What is kept of a field that is such a map depends on what is decoded first:
    from S it is the name, from the map it is the placeholder of the map, which
    stands for nothing.
   */
  lemma KeyLeadsBack()
    ensures var (v, st) := Decode(KEY_LEADS_BACK, 0, EMPTY);
            v.Ref? && v.r < |st.store| && st.store[v.r].Ty? && st.store[v.r].comps == [NameOnly]
    ensures var (v, st) := Decode(KEY_LEADS_BACK, 1, EMPTY);
            && v.NoneV? && 1 in st.cache && st.cache[1].NoneV?
            && 0 in st.cache && IsType(st.store, st.cache[0])
            && var o := st.store[st.cache[0].r];
            && o.Ty? && |o.comps| == 1 && IsBackref(st.store, o.comps[0], 1)
  {
    var mem := KEY_LEADS_BACK;
    var s0 := Entered(0, EMPTY);
    StructOne(mem, 0, EMPTY);
    MapValFails(mem, 1, s0);
    CachedStep(mem, 0, Entered(1, s0));
    var s1 := Entered(1, EMPTY);
    StructOne(mem, 0, s1);
    CachedStep(mem, 1, Entered(0, s1));
    MapValFails(mem, 1, EMPTY);
  }

  lemma MapValFails(mem: Memory, a: Addr, st: State)
    requires a in mem && a !in st.cache && mem[a].Map? && mem[a].val in mem && mem[mem[a].val].Unsupported?
    requires mem[a].val !in Decode(mem, mem[a].key, Entered(a, st)).1.cache
    ensures Decode(mem, a, st).0.NoneV?
    ensures var st1 := Decode(mem, mem[a].key, Entered(a, st)).1;
            var st' := Decode(mem, a, st).1;
            st1.store <= st'.store && st'.cache.Keys >= st1.cache.Keys && a in st'.cache && st'.cache[a].NoneV?
            && forall k | k in st1.cache && k != a :: st'.cache[k] == st1.cache[k]
  {
    UnsupportedFails(mem, mem[a].val, Decode(mem, mem[a].key, Entered(a, st)).1);
  }

  lemma UnsupportedFails(mem: Memory, a: Addr, st: State)
    requires a in mem && a !in st.cache && mem[a].Unsupported?
    ensures Decode(mem, a, st) == (NoneV, State(st.cache[a := NoneV], st.store + [Backref(a)]))
  {
    assert Compute(mem, a, Entered(a, st)) == (NoneV, Entered(a, st));
    hide Compute;
    assert Entered(a, st).cache[a := NoneV] == st.cache[a := NoneV];
  }

  lemma SortedInOrder(f: seq<FieldDesc>)
    requires FieldsInOrder(f)
    ensures Sorted(f) == f
  {
    InOrder(Offsets(f), |f|);
    hide FieldOrder;
  }

  // ----- A shared recursive type -----

  /** type T struct { a []T; b []T }: the one []T object is stored twice. */
  const SHARED_RECURSION: Memory := map[
    0 := Struct([FieldDesc("a", 1, 0), FieldDesc("b", 1, 24)], 48, 8),
    1 := Slice(0)]

  lemma SharedRecursionNeverEnds(depth: nat)
    ensures var (v, st) := Decode(SHARED_RECURSION, 0, EMPTY);
            var out := Remove(st.cache, st.store, v, depth);
            out.Raised? && out.error == RecursionLimit
  {
    SharedRecursionPlain();
    SharedRecursionPaths();
    hide *;
    PlainEndsExactly(SHARED_RECURSION, {0, 1}, 0);
    KnotTying(SHARED_RECURSION, {0, 1}, 0);
    var (v, st) := Decode(SHARED_RECURSION, 0, EMPTY);
    NeverDone(st.cache, st.store, v, depth);
  }

  lemma NeverDone(cache: map<Addr, Val>, s0: seq<Obj>, v: Val, depth: nat)
    requires !Ends(cache, s0, v)
    ensures Remove(cache, s0, v, depth).Raised?
  {
    hide Remove;
  }

  lemma SharedRecursionPlain()
    ensures Plain(SHARED_RECURSION, {0, 1}) && Good(SHARED_RECURSION, {0, 1})
  {
    hide Failing;
    var mem, p := SHARED_RECURSION, {0, 1};
    assert GoodAt(mem, p, 0) && GoodAt(mem, p, 1) && PlainAt(mem, p, 0) && PlainAt(mem, p, 1);
  }

  /** Two simple paths lead to []T, the two fields, and from there one comes back to it. */
  lemma SharedRecursionPaths()
    ensures !OneSimplePath(SHARED_RECURSION, 0)
  {
    var mem := SHARED_RECURSION;
    SharedRecursionStored();
    hide Stored;
    hide SHARED_RECURSION;
    OneStepSimple(mem, 0, 0);
    OneStepSimple(mem, 0, 1);
    assert IsPath(mem, 0, []);
    assert IsPath(mem, 1, [0, 0]) by {
      assert [0, 0][1..] == [0] && [0][1..] == [];
      assert IsPath(mem, 0, [0]);
    }
    assert PathEnd(mem, 1, [0, 0]) == 1 by {
      assert [0, 0][1..] == [0] && [0][1..] == [];
      assert PathEnd(mem, 0, [0]) == 1;
    }
    assert IsPath(mem, 1, []);
    CycleAt(mem, 1, [], [0, 0]);
    assert [0 as nat] != [1];
  }

  lemma OneStepSimple(mem: Memory, a: Addr, i: nat)
    requires i < |Stored(mem, a)| && Stored(mem, a)[i] != a
    ensures SimplePath(mem, a, [i]) && PathEnd(mem, a, [i]) == Stored(mem, a)[i]
  {
    hide Stored;
    var next := Stored(mem, a)[i];
    assert [i][1..] == [];
    assert IsPath(mem, next, []) && Stops(mem, next, []) == [next];
    assert Stops(mem, a, [i]) == [a, next];
  }

  lemma SharedRecursionStored()
    ensures Stored(SHARED_RECURSION, 0) == [1, 1] && Stored(SHARED_RECURSION, 1) == [0]
  {
    SortedInOrder(SHARED_RECURSION[0].fields);
  }

  // ----- A type hidden behind a function -----

  /**
    type U struct { p *U; q []U } and type V struct { f func(U); p *U }.
    Decoding f's argument finishes U, but only *U ends up inside V.
   */
  const HIDDEN_BY_FUNCTION: Memory := map[
    0 := Struct([FieldDesc("f", 2, 0), FieldDesc("p", 3, 8)], 16, 8),
    1 := Struct([FieldDesc("p", 3, 0), FieldDesc("q", 4, 8)], 32, 8),
    2 := Func([1]),
    3 := Pointer(1),
    4 := Slice(1)]

  lemma HiddenByFunctionDecoded()
    ensures var (v, st) := Decode(HIDDEN_BY_FUNCTION, 0, EMPTY);
            && v == Ref(9) && |st.store| == 10 && 1 in st.cache && st.cache[1] == Ref(7)
            && st.store[2] == Backref(1)
            && st.store[4] == Ty(PointerS, [Ref(2)]) && st.store[6] == Ty(SliceS, [Ref(2)])
            && st.store[7].Ty? && st.store[7].comps == [Ref(4), Ref(6)]
            && st.store[8] == Ty(BasicS("funcptr"), [])
            && st.store[9].Ty? && st.store[9].comps == [Ref(8), Ref(4)]
  {
    hide Decode;
    hide Sorted;
    hide StructShape;
    var mem := HIDDEN_BY_FUNCTION;
    var s0 := Entered(0, EMPTY);
    UDecoded(Entered(2, s0));
    FuncStep(mem, 2, 1, s0);
    var s1 := Decode(mem, 2, s0).1;
    CachedStep(mem, 3, s1);
    StructTwo(mem, 0, EMPTY);
  }

  lemma UDecoded(st: State)
    requires |st.store| == 2 && 1 !in st.cache && 3 !in st.cache && 4 !in st.cache
    ensures var (v, st') := Decode(HIDDEN_BY_FUNCTION, 1, st);
            && v == Ref(7) && |st'.store| == 8
            && 1 in st'.cache && 3 in st'.cache && st'.cache[1] == Ref(7) && st'.cache[3] == Ref(4)
            && st'.store[2] == Backref(1)
            && st'.store[4] == Ty(PointerS, [Ref(2)]) && st'.store[6] == Ty(SliceS, [Ref(2)])
            && st'.store[7].Ty? && st'.store[7].comps == [Ref(4), Ref(6)]
  {
    hide Decode;
    hide Sorted;
    hide StructShape;
    var mem := HIDDEN_BY_FUNCTION;
    var s1 := Entered(1, st);
    CachedStep(mem, 1, Entered(3, s1));
    WrapStep(mem, 3, s1);
    var after3 := Decode(mem, 3, s1).1;
    CachedStep(mem, 1, Entered(4, after3));
    WrapStep(mem, 4, after3);
    StructTwo(mem, 1, st);
  }

  lemma HiddenOnePath(store: seq<Obj>)
    requires |store| == 10 && store[2].Backref? && store[4] == Ty(PointerS, [Ref(2)])
    requires store[8] == Ty(BasicS("funcptr"), []) && store[9].Ty? && store[9].comps == [Ref(8), Ref(4)]
    ensures OnePath(store, 9)
    ensures forall x :: Under(store, 9, x) ==> x in {2, 4, 8, 9}
  {
    assert Kids(store[4]) == [Ref(2)] && Kids(store[9]) == [Ref(8), Ref(4)];
    forall x ensures Under(store, 8, x) ==> x == 8 {}
    forall x ensures Under(store, 2, x) ==> x == 2 {}
    forall x ensures Under(store, 4, x) ==> x in {2, 4} {}
    assert OnePath(store, 8) && OnePath(store, 2) && OnePath(store, 4);
    assert !Holder(store, 8);
    assert !Open(store, 8);
    assert Disjoint(store, 9, 0, 1);
  }

  /** The traversal of V ends, yet a placeholder of U is still reachable. */
  lemma PlaceholderLeftByFunction(depth: nat)
    requires depth > 9
    ensures var (v, st) := Decode(HIDDEN_BY_FUNCTION, 0, EMPTY);
            var out := Remove(st.cache, st.store, v, depth);
            out.Done? && exists n: nat :: HasPlaceholder(PlainTree(out.store, v, n))
  {
    var mem := HIDDEN_BY_FUNCTION;
    var (v, st) := Decode(mem, 0, EMPTY);
    HiddenByFunctionDecoded();
    DecodedIsReady(mem, 0);
    HiddenOnePath(st.store);
    RemoveFixes(st.cache, st.store, st.store, 9, depth);
    ReplacedExactlyWhenComplete(st, 9, depth);
    HiddenMissed(st);
    hide Remove;
    hide OnePath;
  }

  /** The slice []U keeps its placeholder: it is reached through U's placeholder, but not stored inside V. */
  lemma HiddenMissed(st: State)
    requires |st.store| == 10 && 1 in st.cache && st.cache[1] == Ref(7) && st.store[2] == Backref(1)
    requires st.store[4] == Ty(PointerS, [Ref(2)]) && st.store[6] == Ty(SliceS, [Ref(2)])
    requires st.store[7].Ty? && st.store[7].comps == [Ref(4), Ref(6)]
    requires st.store[9].Ty? && st.store[9].comps == [Ref(8), Ref(4)]
    requires forall x :: Under(st.store, 9, x) ==> x in {2, 4, 8, 9}
    ensures !Complete(st, 9)
  {
    assert HasKid(st.store, 6, 0) && Holder(st.store, 6);
    assert Reaches(st, Ref(6), 6, 0);
    assert Kids(st.store[7])[1] == Ref(6);
    assert Reaches(st, Ref(2), 6, 1);
    assert Kids(st.store[4])[0] == Ref(2);
    assert Reaches(st, Ref(4), 6, 2);
    assert Kids(st.store[9])[1] == Ref(4);
    assert Reaches(st, Ref(9), 6, 3);
  }

  // ----- A shared object that does not close a cycle -----

  /**
    type K struct { g func(X) }, type X struct { y *K } and type W struct
    { f func(K); a *K; b *K }.  The one *K object, made for X, is stored twice in
    W; its placeholder stands for K, which does not contain it.
   */
  const SHARED_WITHOUT_CYCLE: Memory := map[
    0 := Struct([FieldDesc("f", 1, 0), FieldDesc("a", 3, 8), FieldDesc("b", 3, 16)], 24, 8),
    1 := Func([2]),
    2 := Struct([FieldDesc("g", 4, 0)], 8, 8),
    3 := Pointer(2),
    4 := Func([5]),
    5 := Struct([FieldDesc("y", 3, 0)], 8, 8)]

  lemma KDecoded(st: State)
    requires |st.store| == 2 && 2 !in st.cache && 3 !in st.cache && 4 !in st.cache && 5 !in st.cache
    ensures var (v, st') := Decode(SHARED_WITHOUT_CYCLE, 2, st);
            && v == Ref(9) && |st'.store| == 10
            && 2 in st'.cache && 3 in st'.cache && st'.cache[2] == Ref(9) && st'.cache[3] == Ref(6)
            && st'.store[2] == Backref(2) && st'.store[6] == Ty(PointerS, [Ref(2)])
            && st'.store[8] == Ty(BasicS("funcptr"), [])
            && st'.store[9].Ty? && st'.store[9].comps == [Ref(8)]
  {
    hide Decode;
    hide Sorted;
    hide StructShape;
    var mem := SHARED_WITHOUT_CYCLE;
    var s1 := Entered(2, st);
    var s2 := Entered(4, s1);
    var s3 := Entered(5, s2);
    CachedStep(mem, 2, Entered(3, s3));
    WrapStep(mem, 3, s3);
    StructOne(mem, 5, s2);
    FuncStep(mem, 4, 5, s1);
    StructOne(mem, 2, st);
  }

  lemma SharedWithoutCycleDecoded()
    ensures var (v, st) := Decode(SHARED_WITHOUT_CYCLE, 0, EMPTY);
            && v == Ref(11) && |st.store| == 12 && 2 in st.cache && st.cache[2] == Ref(9)
            && st.store[2] == Backref(2) && st.store[6] == Ty(PointerS, [Ref(2)])
            && st.store[8] == Ty(BasicS("funcptr"), [])
            && st.store[9].Ty? && st.store[9].comps == [Ref(8)]
            && st.store[10] == Ty(BasicS("funcptr"), [])
            && st.store[11].Ty? && st.store[11].comps == [Ref(10), Ref(6), Ref(6)]
  {
    hide Decode;
    hide Sorted;
    hide StructShape;
    var mem := SHARED_WITHOUT_CYCLE;
    var s0 := Entered(0, EMPTY);
    KDecoded(Entered(1, s0));
    FuncStep(mem, 1, 2, s0);
    var s1 := Decode(mem, 1, s0).1;
    CachedStep(mem, 3, s1);
    StructThree(mem, 0, EMPTY);
  }

  lemma SharedTwice(store: seq<Obj>)
    requires |store| == 12 && store[2].Backref? && store[6] == Ty(PointerS, [Ref(2)])
    requires store[11].Ty? && store[11].comps == [Ref(10), Ref(6), Ref(6)]
    ensures !OnePath(store, 11)
  {
    assert HasKid(store, 6, 0) && HasKid(store, 11, 1) && HasKid(store, 11, 2);
    assert Under(store, 6, 6);
    assert Holder(store, 6);
    assert OpenUnder(store, 6, 6);
    assert Kid(store, 11, 1) == 6 && Kid(store, 11, 2) == 6;
    assert !Disjoint(store, 11, 1, 2);
  }

  /** A visit of an object whose components are visited one after the other. */
  lemma VisitNothing(cache: map<Addr, Val>, s: seq<Obj>, r: nat, depth: nat)
    requires r < |s| && s[r].Ty? && s[r].comps == [] && depth > 0
    ensures Remove(cache, s, Ref(r), depth) == Done(Ref(r), s)
  {
    assert SetComps(s, r, []) == s;
  }

  lemma VisitOne(cache: map<Addr, Val>, s: seq<Obj>, r: nat, depth: nat)
    requires r < |s| && s[r].Ty? && |s[r].comps| == 1 && depth > 0
    requires Remove(cache, s, s[r].comps[0], depth - 1).Done?
    ensures var first := Remove(cache, s, s[r].comps[0], depth - 1);
            Remove(cache, s, Ref(r), depth) == Done(Ref(r), SetComps(first.store, r, [first.v]))
  {
    ListOne(cache, s, s[r].comps[0], depth - 1);
    assert s[r].comps == [s[r].comps[0]];
    hide RemoveAll;
  }

  lemma ListOne(cache: map<Addr, Val>, s: seq<Obj>, v: Val, depth: nat)
    requires Remove(cache, s, v, depth).Done?
    ensures var first := Remove(cache, s, v, depth);
            RemoveAll(cache, s, [v], depth) == DoneAll([first.v], first.store)
  {
    hide Remove;
    var first := Remove(cache, s, v, depth);
    assert [v][1..] == [] && RemoveAll(cache, first.store, [], depth) == DoneAll([], first.store);
    assert [first.v] + [] == [first.v];
  }

  lemma ListMore(cache: map<Addr, Val>, s: seq<Obj>, v: Val, vs: seq<Val>, depth: nat)
    requires var first := Remove(cache, s, v, depth);
             first.Done? && RemoveAll(cache, first.store, vs, depth).DoneAll?
    ensures RemoveAll(cache, s, [v] + vs, depth).DoneAll?
  {
    hide Remove;
    assert ([v] + vs)[1..] == vs;
  }

  /**
    An open object is stored in two places, and yet the traversal ends: the
    placeholder replaced on the first visit leads out of the object.
   */
  lemma SharedWithoutCycleEnds()
    ensures var (v, st) := Decode(SHARED_WITHOUT_CYCLE, 0, EMPTY);
            && v.Ref? && !OnePath(st.store, v.r) && Ends(st.cache, st.store, v)
            && !Closes(st.cache, st.store, v.r) && OneClosingPath(st.cache, st.store, v.r)
  {
    SharedWithoutCycleGood();
    SharedWithoutCycleDecoded();
    hide *;
    var mem := SHARED_WITHOUT_CYCLE;
    var (v, st) := Decode(mem, 0, EMPTY);
    SharedTwice(st.store);
    SharedVisit(st.cache, st.store);
    KnotTying(mem, {0, 1, 2, 3, 4, 5}, 0);
  }

  lemma SharedWithoutCycleGood()
    ensures Good(SHARED_WITHOUT_CYCLE, {0, 1, 2, 3, 4, 5})
  {
    hide Failing;
    var good: set<Addr> := {0, 1, 2, 3, 4, 5};
    assert forall a | a in good :: GoodAt(SHARED_WITHOUT_CYCLE, good, a);
  }

  lemma SharedVisit(cache: map<Addr, Val>, s: seq<Obj>)
    requires |s| == 12 && 2 in cache && cache[2] == Ref(9)
    requires s[2] == Backref(2) && s[6] == Ty(PointerS, [Ref(2)]) && s[8] == Ty(BasicS("funcptr"), [])
    requires s[9].Ty? && s[9].comps == [Ref(8)] && s[10] == Ty(BasicS("funcptr"), [])
    requires s[11].Ty? && s[11].comps == [Ref(10), Ref(6), Ref(6)]
    ensures Ends(cache, s, Ref(11))
  {
    assert Remove(cache, s, Ref(2), 3) == Done(Ref(9), s);
    var t := SetComps(s, 6, [Ref(9)]);
    assert t[6] == Ty(PointerS, [Ref(9)]) && t[9] == s[9] && t[8] == s[8];
    hide Remove;
    hide RemoveAll;
    VisitNothing(cache, s, 10, 4);
    VisitOne(cache, s, 6, 4);
    VisitNothing(cache, t, 8, 2);
    VisitOne(cache, t, 9, 3);
    assert SetComps(t, 9, [Ref(8)]) == t;
    VisitOne(cache, t, 6, 4);
    ListOne(cache, t, Ref(6), 4);
    ListMore(cache, s, Ref(6), [Ref(6)], 4);
    ListMore(cache, s, Ref(10), [Ref(6)] + [Ref(6)], 4);
    VisitList(cache, s, 11, 5);
  }

  lemma VisitList(cache: map<Addr, Val>, s: seq<Obj>, r: nat, depth: nat)
    requires r < |s| && s[r].Ty? && depth > 0 && RemoveAll(cache, s, s[r].comps, depth - 1).DoneAll?
    ensures Remove(cache, s, Ref(r), depth).Done?
    ensures Ends(cache, s, Ref(r))
  {
    hide RemoveAll;
    assert Remove(cache, s, Ref(r), depth).Done?;
  }
}
