/**
  What the type decoder guarantees: its cache discipline, and that the object
  graph it builds, read through its placeholders, is the type graph in memory.
 */
module GoDecodeProofs {
  import opened GoDecode

  ghost predicate IsBackref(store: seq<Obj>, v: Val, k: Addr) {
    v.Ref? && v.r < |store| && store[v.r] == Backref(k)
  }

  ghost predicate IsType(store: seq<Obj>, v: Val) {
    v.Ref? && v.r < |store| && !store[v.r].Backref?
  }

  /** Components are allocated before the object that holds them. */
  ghost predicate Ordered(store: seq<Obj>) {
    forall r, i :: 0 <= r < |store| && 0 <= i < |Kids(store[r])| && Kids(store[r])[i].Ref?
                   ==> Kids(store[r])[i].r < r
  }

  /** Addresses on the call stack map to their placeholder, all others to a result. */
  ghost predicate CacheOk(st: State, pending: set<Addr>) {
    && pending <= st.cache.Keys
    && (forall k | k in pending :: IsBackref(st.store, st.cache[k], k))
    && (forall k | k in st.cache && k !in pending :: st.cache[k].NoneV? || IsType(st.store, st.cache[k]))
  }

  /** One placeholder for every address ever entered, so each is computed at most once. */
  ghost predicate PlaceholdersOk(st: State) {
    && (forall i | 0 <= i < |st.store| && st.store[i].Backref? :: st.store[i].key in st.cache)
    && (forall i, j | 0 <= i < |st.store| && 0 <= j < |st.store| && st.store[i].Backref? && st.store[i] == st.store[j] :: i == j)
  }

  // ----- Agreement with memory -----

  /** The addresses whose decoded types are stored inside the type at an address. */
  function Parts(d: Desc): seq<Addr> {
    match d
    case Array(elem, _) => [elem]
    case Slice(elem) => [elem]
    case Pointer(elem) => [elem]
    case Map(key, val) => [key, val]
    case Struct(fields, _, _) => FieldTypes(fields)
    case _ => []
  }

  /** The addresses that decoding a type goes on to. */
  function Refs(d: Desc): seq<Addr> {
    match d
    case Func(params) => params
    case Interface(methods) => methods
    case _ => Parts(d)
  }

  /** Decoding `x` may enter `y`, in at most `n` steps. */
  ghost predicate EntersIn(mem: Memory, x: Addr, y: Addr, n: nat)
    decreases n
  {
    x == y || (n > 0 && x in mem && exists i :: 0 <= i < |Refs(mem[x])| && EntersIn(mem, Refs(mem[x])[i], y, n - 1))
  }

  ghost predicate Enters(mem: Memory, x: Addr, y: Addr) {
    exists n: nat :: EntersIn(mem, x, y, n)
  }

  /** Decoding from within `region` stays there. */
  ghost predicate Closed(mem: Memory, region: iset<Addr>) {
    forall x, i | x in region && x in mem && 0 <= i < |Refs(mem[x])| :: Refs(mem[x])[i] in region
  }

  ghost const EVERYWHERE: iset<Addr> := iset a: Addr | true

  /**
    The type at `a` cannot be decoded, for a reason at most `n` steps away: it is
    invalid or unsupported, or it is wrapped around such a type.  A map fails with
    its key, and with its value unless the key leads back to the map.
   */
  ghost predicate Fails(mem: Memory, a: Addr, n: nat)
    decreases n
  {
    n > 0 && (a in mem ==>
      match mem[a]
      case Array(elem, _) => Fails(mem, elem, n - 1)
      case Slice(elem) => Fails(mem, elem, n - 1)
      case Pointer(elem) => Fails(mem, elem, n - 1)
      case Map(key, val) => Fails(mem, key, n - 1) || (!Enters(mem, key, a) && Fails(mem, val, n - 1))
      case Unsupported => true
      case _ => false)
  }

  ghost predicate Failing(mem: Memory, a: Addr) {
    exists n: nat :: Fails(mem, a, n)
  }

  /**
    Every address of `good` decodes: it is valid and supported, and so are its
    parts, except that a struct may have fields whose types fail.
   */
  ghost predicate Good(mem: Memory, good: set<Addr>) {
    && good <= mem.Keys
    && forall a {:trigger GoodAt(mem, good, a)} | a in good :: GoodAt(mem, good, a)
  }

  ghost predicate GoodAt(mem: Memory, good: set<Addr>, a: Addr)
    requires a in mem
  {
    && !mem[a].Unsupported?
    && forall i | 0 <= i < |Parts(mem[a])| :: Parts(mem[a])[i] in good || (mem[a].Struct? && Failing(mem, Parts(mem[a])[i]))
  }

  /** `v` stands for the type at `a`: its placeholder or its final object. */
  ghost predicate Represents(st: State, v: Val, a: Addr) {
    IsBackref(st.store, v, a) || (a in st.cache && st.cache[a] == v && IsType(st.store, v))
  }

  ghost predicate Wraps(st: State, o: Obj, shape: Shape, elem: Addr) {
    o.Ty? && o.shape == shape && |o.comps| == 1 && Represents(st, o.comps[0], elem)
  }

  /** The value of a struct field: only the name is kept of a type that fails. */
  ghost predicate FieldMatches(mem: Memory, st: State, v: Val, a: Addr) {
    if Failing(mem, a) then v.NameOnly? else Represents(st, v, a)
  }

  /** Object `o` describes `d` one level deep. */
  ghost predicate Matches(mem: Memory, d: Desc, st: State, o: Obj) {
    match d
    case Simple(name) => o == Ty(BasicS(name), [])
    case Func(_) => o == Ty(BasicS("funcptr"), [])
    case Interface(methods) => o == Ty(BasicS(if methods == [] then "any" else "interface"), [])
    case Array(elem, len) => 
      assert Parts(d)[0] == elem;
      Wraps(st, o, ArrayS(len), elem)
    case Slice(elem) => 
      assert Parts(d)[0] == elem;
      Wraps(st, o, SliceS, elem)
    case Pointer(elem) => 
      assert Parts(d)[0] == elem;
      Wraps(st, o, PointerS, elem)
    case Map(key, val) =>
      && o.Ty? && o.shape == PointerS && |o.comps| == 1
      && IsType(st.store, o.comps[0])
      && var m := st.store[o.comps[0].r];
      && m.MapO? && Represents(st, m.keyType, key) && Represents(st, m.valType, val)
    case Struct(fields, size, align) =>
      && o.Ty? && o.shape == StructShape(Sorted(fields), size, align) && |o.comps| == |fields|
      && forall i | 0 <= i < |fields| :: FieldMatches(mem, st, o.comps[i], Sorted(fields)[i].ty)
    case Unsupported => false
  }

  ghost predicate AgreesAt(mem: Memory, st: State, k: Addr)
    requires k in mem && k in st.cache
  {
    IsType(st.store, st.cache[k]) && Matches(mem, mem[k], st, st.store[st.cache[k].r])
  }

  ghost predicate Agrees(mem: Memory, good: set<Addr>, st: State, pending: set<Addr>) {
    forall k {:trigger AgreesAt(mem, st, k)} | k in good && k in mem && k in st.cache && k !in pending ::
      AgreesAt(mem, st, k)
  }

  ghost predicate Core(mem: Memory, good: set<Addr>, st: State, pending: set<Addr>) {
    Ordered(st.store) && CacheOk(st, pending) && PlaceholdersOk(st) && Agrees(mem, good, st, pending)
  }

  /** A type of the region that fails is cached as None. */
  ghost predicate Clean(mem: Memory, region: iset<Addr>, st: State) {
    forall k | k in st.cache && k in region && Failing(mem, k) :: st.cache[k].NoneV?
  }

  ghost predicate InvIn(mem: Memory, good: set<Addr>, region: iset<Addr>, st: State, pending: set<Addr>) {
    Core(mem, good, st, pending) && Closed(mem, region) && Clean(mem, region, st)
  }

  ghost predicate Inv(mem: Memory, good: set<Addr>, st: State, pending: set<Addr>) {
    InvIn(mem, good, EVERYWHERE, st, pending)
  }

  /** What one call returns: nothing, a finished type, or the placeholder of a caller. */
  ghost predicate ResultOk(mem: Memory, good: set<Addr>, a: Addr, v: Val, st: State, pending: set<Addr>) {
    && (v.NoneV? || IsType(st.store, v) || exists k :: k in pending && IsBackref(st.store, v, k))
    && (a in good ==> Represents(st, v, a))
    && (Failing(mem, a) ==> v.NoneV?)
  }

  lemma GoodParts(mem: Memory, good: set<Addr>, a: Addr)
    requires Good(mem, good) && a in good
    ensures !mem[a].Unsupported?
    ensures forall i | 0 <= i < |Parts(mem[a])| :: Parts(mem[a])[i] in good || (mem[a].Struct? && Failing(mem, Parts(mem[a])[i]))
  {
    assert GoodAt(mem, good, a);
  }

  lemma {:induction false} GoodNeverFails(mem: Memory, good: set<Addr>, a: Addr, n: nat)
    requires Good(mem, good) && a in good
    ensures !Fails(mem, a, n)
    decreases n
  {
    if n > 0 {
      GoodParts(mem, good, a);
      var d := mem[a];
      if d.Array? || d.Slice? || d.Pointer? || d.Map? {
        GoodNeverFails(mem, good, Parts(d)[0], n - 1);
      }
      if d.Map? {
        GoodNeverFails(mem, good, Parts(d)[1], n - 1);
      }
    }
  }

  lemma GoodNotFailing(mem: Memory, good: set<Addr>, a: Addr)
    requires Good(mem, good) && a in good
    ensures !Failing(mem, a)
  {
    forall n: nat ensures !Fails(mem, a, n) {
      GoodNeverFails(mem, good, a, n);
    }
  }

  // ----- Preservation -----

  /** `later` extends `earlier`, except that the pending address `a` may have been finished. */
  ghost predicate GrowsBut(earlier: State, later: State, a: Addr) {
    && earlier.store <= later.store
    && (forall k | k in earlier.cache :: k in later.cache)
    && (forall k | k in earlier.cache && k != a :: later.cache[k] == earlier.cache[k])
    && (a in earlier.cache ==> IsBackref(earlier.store, earlier.cache[a], a))
  }

  lemma RepresentsGrows(earlier: State, later: State, v: Val, a: Addr, x: Addr)
    requires Grows(earlier, later) || GrowsBut(earlier, later, x)
    requires Represents(earlier, v, a)
    ensures Represents(later, v, a)
  {
  }

  lemma MatchesGrows(mem: Memory, d: Desc, earlier: State, later: State, o: Obj, x: Addr)
    requires Grows(earlier, later) || GrowsBut(earlier, later, x)
    requires Matches(mem, d, earlier, o)
    ensures Matches(mem, d, later, o)
  {
    hide Failing;
    hide StructShape;
    hide Sorted;
  }

  lemma AgreesGrows(mem: Memory, good: set<Addr>, earlier: State, later: State, pending: set<Addr>, more: set<Addr>)
    requires Grows(earlier, later) && Agrees(mem, good, earlier, pending) && pending <= more
    requires later.cache.Keys <= earlier.cache.Keys + more
    ensures Agrees(mem, good, later, more)
  {
    hide Matches;
    forall k | k in good && k in mem && k in later.cache && k !in more
      ensures AgreesAt(mem, later, k)
    {
      assert AgreesAt(mem, earlier, k);
      MatchesGrows(mem, mem[k], earlier, later, earlier.store[earlier.cache[k].r], 0);
    }
  }

  /** Adding objects whose components are older keeps the core of the invariant. */
  lemma AllocCore(mem: Memory, good: set<Addr>, st: State, pending: set<Addr>, o: Obj)
    requires Core(mem, good, st, pending)
    requires !o.Backref?
    requires forall i | 0 <= i < |Kids(o)| && Kids(o)[i].Ref? :: Kids(o)[i].r < |st.store|
    ensures Core(mem, good, Alloc(st, o).1, pending)
  {
    AgreesGrows(mem, good, st, Alloc(st, o).1, pending, pending);
    hide Agrees;
  }

  lemma EnterCore(mem: Memory, good: set<Addr>, st: State, pending: set<Addr>, a: Addr, st1: State)
    requires Core(mem, good, st, pending) && a !in st.cache
    requires st1 == State(st.cache[a := Ref(|st.store|)], st.store + [Backref(a)])
    ensures Core(mem, good, st1, pending + {a})
  {
    AgreesGrows(mem, good, st, st1, pending, pending + {a});
    hide Agrees;
  }

  lemma LeaveCore(mem: Memory, good: set<Addr>, st: State, pending: set<Addr>, a: Addr, v: Val)
    requires Good(mem, good) && a in mem
    requires a !in pending && Core(mem, good, st, pending + {a})
    requires v.NoneV? || IsType(st.store, v)
    requires a in good ==> IsType(st.store, v) && Matches(mem, mem[a], st, st.store[v.r])
    ensures Core(mem, good, State(st.cache[a := v], st.store), pending)
  {
    var st' := State(st.cache[a := v], st.store);
    assert GrowsBut(st, st', a);
    forall k | k in good && k in mem && k in st'.cache && k !in pending
      ensures AgreesAt(mem, st', k)
    {
      if k != a {
        assert AgreesAt(mem, st, k);
      }
      MatchesGrows(mem, mem[k], st, st', st.store[st'.cache[k].r], a);
    }
  }

  lemma AllocIn(mem: Memory, good: set<Addr>, region: iset<Addr>, st: State, pending: set<Addr>, o: Obj)
    requires InvIn(mem, good, region, st, pending)
    requires !o.Backref?
    requires forall i | 0 <= i < |Kids(o)| && Kids(o)[i].Ref? :: Kids(o)[i].r < |st.store|
    ensures InvIn(mem, good, region, Alloc(st, o).1, pending)
  {
    AllocCore(mem, good, st, pending, o);
    hide Core;
    hide Closed;
  }

  lemma EnterIn(mem: Memory, good: set<Addr>, region: iset<Addr>, st: State, pending: set<Addr>, a: Addr, st1: State)
    requires InvIn(mem, good, region, st, pending) && a !in st.cache && !Failing(mem, a)
    requires st1 == State(st.cache[a := Ref(|st.store|)], st.store + [Backref(a)])
    ensures InvIn(mem, good, region, st1, pending + {a})
  {
    EnterCore(mem, good, st, pending, a, st1);
    hide Core;
    hide Closed;
  }

  // ----- What a call may enter -----

  lemma {:induction false} EntersInTrans(mem: Memory, x: Addr, y: Addr, z: Addr, n: nat, m: nat)
    requires EntersIn(mem, x, y, n) && EntersIn(mem, y, z, m)
    ensures EntersIn(mem, x, z, n + m)
    decreases n
  {
    if x == y {
      EntersInMore(mem, y, z, m, n + m);
    } else {
      var i :| 0 <= i < |Refs(mem[x])| && EntersIn(mem, Refs(mem[x])[i], y, n - 1);
      EntersInTrans(mem, Refs(mem[x])[i], y, z, n - 1, m);
    }
  }

  lemma {:induction false} EntersInMore(mem: Memory, x: Addr, y: Addr, n: nat, m: nat)
    requires EntersIn(mem, x, y, n) && n <= m
    ensures EntersIn(mem, x, y, m)
    decreases n
  {
    if x != y {
      var i :| 0 <= i < |Refs(mem[x])| && EntersIn(mem, Refs(mem[x])[i], y, n - 1);
      EntersInMore(mem, Refs(mem[x])[i], y, n - 1, m - 1);
    }
  }

  lemma EntersTrans(mem: Memory, x: Addr, y: Addr, z: Addr)
    requires Enters(mem, x, y) && Enters(mem, y, z)
    ensures Enters(mem, x, z)
  {
    var n: nat :| EntersIn(mem, x, y, n);
    var m: nat :| EntersIn(mem, y, z, m);
    EntersInTrans(mem, x, y, z, n, m);
  }

  lemma EntersPart(mem: Memory, x: Addr, i: nat)
    requires x in mem && i < |Refs(mem[x])|
    ensures Enters(mem, x, Refs(mem[x])[i])
  {
    assert EntersIn(mem, Refs(mem[x])[i], Refs(mem[x])[i], 0);
    assert EntersIn(mem, x, Refs(mem[x])[i], 1);
  }

  ghost function ReachedFrom(mem: Memory, x: Addr): iset<Addr> {
    iset y | Enters(mem, x, y)
  }

  lemma ReachedIsClosed(mem: Memory, x: Addr)
    ensures Closed(mem, ReachedFrom(mem, x)) && x in ReachedFrom(mem, x)
  {
    assert EntersIn(mem, x, x, 0);
    hide Refs;
    forall y, i | y in ReachedFrom(mem, x) && y in mem && 0 <= i < |Refs(mem[y])|
      ensures Refs(mem[y])[i] in ReachedFrom(mem, x)
    {
      EntersPart(mem, y, i);
      EntersTrans(mem, x, y, Refs(mem[y])[i]);
    }
  }

  /** What is reached from within a closed region lies in it. */
  lemma {:induction false} ReachedInside(mem: Memory, region: iset<Addr>, x: Addr, y: Addr, n: nat)
    requires Closed(mem, region) && x in region && EntersIn(mem, x, y, n)
    ensures y in region
    decreases n
  {
    if x != y {
      var i :| 0 <= i < |Refs(mem[x])| && EntersIn(mem, Refs(mem[x])[i], y, n - 1);
      ReachedInside(mem, region, Refs(mem[x])[i], y, n - 1);
    }
  }

  // ----- Types that fail -----

  lemma {:induction false} FailsMore(mem: Memory, a: Addr, n: nat)
    requires Fails(mem, a, n)
    ensures Fails(mem, a, n + 1)
    decreases n
  {
    if a in mem {
      match mem[a]
      case Array(elem, _) => FailsMore(mem, elem, n - 1);
      case Slice(elem) => FailsMore(mem, elem, n - 1);
      case Pointer(elem) => FailsMore(mem, elem, n - 1);
      case Map(key, val) =>
        if Fails(mem, key, n - 1) {
          FailsMore(mem, key, n - 1);
        } else {
          FailsMore(mem, val, n - 1);
        }
      case _ =>
    }
  }

  /** The reason for the failure of `a` is exactly `n` steps away. */
  ghost predicate FailsAt(mem: Memory, a: Addr, n: nat) {
    n > 0 && Fails(mem, a, n) && !Fails(mem, a, n - 1)
  }

  lemma WrapFails(mem: Memory, a: Addr, elem: Addr, n: nat)
    requires a in mem && FailsAt(mem, a, n)
    requires (mem[a].Array? || mem[a].Slice? || mem[a].Pointer?) && mem[a].elem == elem
    ensures FailsAt(mem, elem, n - 1)
  {
    assert Fails(mem, elem, n - 1);
    assert n - 1 > 0;
  }

  lemma MapFails(mem: Memory, a: Addr, n: nat)
    requires a in mem && FailsAt(mem, a, n) && mem[a].Map?
    ensures FailsAt(mem, mem[a].key, n - 1) || (!Enters(mem, mem[a].key, a) && FailsAt(mem, mem[a].val, n - 1))
  {
    if Fails(mem, mem[a].key, n - 1) {
      assert n - 1 > 0;
    } else {
      assert Fails(mem, mem[a].val, n - 1);
      assert n - 1 > 0;
    }
  }

  lemma {:induction false} FirstFailure(mem: Memory, a: Addr, n: nat) returns (k: nat)
    requires Fails(mem, a, n)
    ensures FailsAt(mem, a, k)
    decreases n
  {
    if Fails(mem, a, n - 1) {
      k := FirstFailure(mem, a, n - 1);
    } else {
      k := n;
    }
  }

  /** Of the failing types of the region, only such may be unfinished as lead to `a` and fail for a reason more than `n` steps away. */
  ghost predicate CleanBut(mem: Memory, region: iset<Addr>, st: State, a: Addr, n: nat) {
    forall k | k in st.cache && k in region && Failing(mem, k) :: st.cache[k].NoneV? || (Enters(mem, k, a) && !Fails(mem, k, n))
  }

  /** Whatever failing type was entered since `earlier` is cached as None. */
  ghost predicate CleanSince(mem: Memory, earlier: State, later: State) {
    forall k | k in later.cache && Failing(mem, k) :: k in earlier.cache || later.cache[k].NoneV?
  }

  lemma CleanStays(mem: Memory, region: iset<Addr>, earlier: State, later: State)
    requires Grows(earlier, later) && Clean(mem, region, earlier) && CleanSince(mem, earlier, later)
    ensures Clean(mem, region, later)
  {
    hide Failing;
  }

  lemma SinceTrans(mem: Memory, st: State, st1: State, st2: State)
    requires Grows(st, st1) && Grows(st1, st2) && CleanSince(mem, st, st1) && CleanSince(mem, st1, st2)
    ensures CleanSince(mem, st, st2)
  {
    hide Failing;
  }

  /** From a failing type on to the next one that is the reason. */
  lemma CleanOnward(mem: Memory, region: iset<Addr>, st: State, st1: State, a: Addr, i: nat, n: nat)
    requires CleanBut(mem, region, st, a, n) && Grows(st, st1) && CleanSince(mem, st, st1)
    requires a in mem && i < |Refs(mem[a])|
    ensures CleanBut(mem, region, st1, Refs(mem[a])[i], n)
  {
    hide Failing;
    hide Refs;
    hide Enters;
    hide Fails;
    forall k | k in st1.cache && k in region && Failing(mem, k) && !st1.cache[k].NoneV?
      ensures Enters(mem, k, Refs(mem[a])[i])
    {
      EntersPart(mem, a, i);
      EntersTrans(mem, k, a, Refs(mem[a])[i]);
    }
  }

  /** `a` itself becomes unfinished. */
  lemma CleanEntered(mem: Memory, region: iset<Addr>, st: State, st1: State, a: Addr, n: nat)
    requires CleanBut(mem, region, st, a, n) && FailsAt(mem, a, n)
    requires st1.cache == st.cache[a := Ref(|st.store|)]
    ensures CleanBut(mem, region, st1, a, n - 1)
  {
    assert EntersIn(mem, a, a, 0);
    hide Failing;
    hide Enters;
    forall k | k in st1.cache && k in region && Failing(mem, k) && !st1.cache[k].NoneV?
      ensures Enters(mem, k, a) && !Fails(mem, k, n - 1)
    {
      if k != a && Fails(mem, k, n - 1) {
        FailsMore(mem, k, n - 1);
      }
    }
  }

  /** What a key leads to is clean, if the key does not lead back to its map. */
  lemma CleanFromKey(mem: Memory, region: iset<Addr>, st: State, a: Addr, key: Addr, n: nat)
    requires CleanBut(mem, region, st, a, n) && Closed(mem, region) && key in region && !Enters(mem, key, a)
    ensures Closed(mem, ReachedFrom(mem, key)) && key in ReachedFrom(mem, key) && Clean(mem, ReachedFrom(mem, key), st)
  {
    ReachedIsClosed(mem, key);
    forall k | k in st.cache && k in ReachedFrom(mem, key) && Failing(mem, k) ensures st.cache[k].NoneV? {
      var m: nat :| EntersIn(mem, key, k, m);
      ReachedInside(mem, region, key, k, m);
      if Enters(mem, k, a) {
        EntersTrans(mem, key, k, a);
      }
    }
  }

  /** A failing type decodes to None, also while types that fail because of it are being decoded. */
  lemma {:induction false} FailingInv(mem: Memory, good: set<Addr>, region: iset<Addr>, a: Addr, n: nat, st: State, pending: set<Addr>)
    requires Good(mem, good) && Core(mem, good, st, pending) && Closed(mem, region) && a in region
    requires FailsAt(mem, a, n) && CleanBut(mem, region, st, a, n)
    ensures var (v, st') := Decode(mem, a, st);
            v.NoneV? && Core(mem, good, st', pending) && CleanSince(mem, st, st')
    decreases mem.Keys - st.cache.Keys, 0, 0
  {
    if a !in st.cache && a in mem {
      var st1 := State(st.cache[a := Ref(|st.store|)], st.store + [Backref(a)]);
      assert a in mem.Keys - st.cache.Keys && a !in mem.Keys - st1.cache.Keys;
      EnterCore(mem, good, st, pending, a, st1);
      CleanEntered(mem, region, st, st1, a, n);
      FailingCompute(mem, good, region, a, n, st1, pending + {a});
      var (v, st2) := Compute(mem, a, st1);
      if a in good {
        GoodNeverFails(mem, good, a, n);
      }
      LeaveCore(mem, good, st2, pending, a, v);
      hide Core;
      hide Failing;
    } else {
      assert Failing(mem, a);
    }
  }

  lemma {:induction false} FailingCompute(mem: Memory, good: set<Addr>, region: iset<Addr>, a: Addr, n: nat, st: State, pending: set<Addr>)
    requires Good(mem, good) && Core(mem, good, st, pending) && Closed(mem, region) && a in region && a in mem
    requires FailsAt(mem, a, n) && CleanBut(mem, region, st, a, n - 1)
    ensures var (v, st') := Compute(mem, a, st);
            v.NoneV? && Core(mem, good, st', pending) && CleanSince(mem, st, st')
    decreases mem.Keys - st.cache.Keys, 1, 0
  {
    hide Core;
    hide Good;
    hide Failing;
    hide CleanBut;
    match mem[a]
    case Array(elem, _) => FailingWrap(mem, good, region, a, elem, n, st, pending);
    case Slice(elem) => FailingWrap(mem, good, region, a, elem, n, st, pending);
    case Pointer(elem) => FailingWrap(mem, good, region, a, elem, n, st, pending);
    case Map(key, val) => FailingMap(mem, good, region, a, n, st, pending);
    case Unsupported =>
  }

  lemma {:induction false} FailingWrap(mem: Memory, good: set<Addr>, region: iset<Addr>, a: Addr, elem: Addr, n: nat, st: State, pending: set<Addr>)
    requires Good(mem, good) && Core(mem, good, st, pending) && Closed(mem, region) && a in region && a in mem
    requires FailsAt(mem, a, n) && CleanBut(mem, region, st, a, n - 1)
    requires (mem[a].Array? || mem[a].Slice? || mem[a].Pointer?) && mem[a].elem == elem
    ensures var (v, st') := Decode(mem, elem, st);
            v.NoneV? && Core(mem, good, st', pending) && CleanSince(mem, st, st')
    decreases mem.Keys - st.cache.Keys, 0, 1
  {
    assert Refs(mem[a])[0] == elem;
    WrapFails(mem, a, elem, n);
    CleanOnward(mem, region, st, st, a, 0, n - 1);
    FailingInv(mem, good, region, elem, n - 1, st, pending);
  }

  lemma {:induction false} FailingMap(mem: Memory, good: set<Addr>, region: iset<Addr>, a: Addr, n: nat, st: State, pending: set<Addr>)
    requires Good(mem, good) && Core(mem, good, st, pending) && Closed(mem, region) && a in region && a in mem && mem[a].Map?
    requires FailsAt(mem, a, n) && CleanBut(mem, region, st, a, n - 1)
    ensures var (v, st') := Compute(mem, a, st);
            v.NoneV? && Core(mem, good, st', pending) && CleanSince(mem, st, st')
    decreases mem.Keys - st.cache.Keys, 0, 3
  {
    var key, val := mem[a].key, mem[a].val;
    assert Refs(mem[a])[0] == key && Refs(mem[a])[1] == val;
    MapFails(mem, a, n);
    if FailsAt(mem, key, n - 1) {
      CleanOnward(mem, region, st, st, a, 0, n - 1);
      FailingInv(mem, good, region, key, n - 1, st, pending);
    } else {
      CleanFromKey(mem, region, st, a, key, n - 1);
      DecodeIn(mem, good, ReachedFrom(mem, key), key, st, pending);
      var st1 := Decode(mem, key, st).1;
      CleanOnward(mem, region, st, st1, a, 1, n - 1);
      FailingInv(mem, good, region, val, n - 1, st1, pending);
      SinceTrans(mem, st, st1, Decode(mem, val, st1).1);
    }
    hide Core;
    hide CleanSince;
  }

  // ----- Every call -----

  lemma {:induction false} DecodeIn(mem: Memory, good: set<Addr>, region: iset<Addr>, a: Addr, st: State, pending: set<Addr>)
    requires Good(mem, good) && InvIn(mem, good, region, st, pending) && a in region
    ensures var (v, st') := Decode(mem, a, st);
            InvIn(mem, good, region, st', pending) && ResultOk(mem, good, a, v, st', pending) && CleanSince(mem, st, st')
    decreases mem.Keys - st.cache.Keys, 0, 2
  {
    if Failing(mem, a) {
      FailedIn(mem, good, region, a, st, pending);
    } else if a !in st.cache {
      assert a !in mem ==> Fails(mem, a, 1);
      var st1 := State(st.cache[a := Ref(|st.store|)], st.store + [Backref(a)]);
      assert a in mem.Keys - st.cache.Keys && a !in mem.Keys - st1.cache.Keys;
      EnterIn(mem, good, region, st, pending, a, st1);
      ComputeIn(mem, good, region, a, st1, pending + {a});
      var (v, st2) := Compute(mem, a, st1);
      LeaveCore(mem, good, st2, pending, a, v);
    } else {
      assert a in good && a !in pending ==> AgreesAt(mem, st, a);
    }
  }

  lemma {:induction false} FailedIn(mem: Memory, good: set<Addr>, region: iset<Addr>, a: Addr, st: State, pending: set<Addr>)
    requires Good(mem, good) && InvIn(mem, good, region, st, pending) && a in region && Failing(mem, a)
    ensures var (v, st') := Decode(mem, a, st);
            InvIn(mem, good, region, st', pending) && ResultOk(mem, good, a, v, st', pending) && CleanSince(mem, st, st')
    decreases mem.Keys - st.cache.Keys, 0, 1
  {
    var n: nat :| Fails(mem, a, n);
    n := FirstFailure(mem, a, n);
    FailingInv(mem, good, region, a, n, st, pending);
    CleanStays(mem, region, st, Decode(mem, a, st).1);
    if a in good {
      GoodNotFailing(mem, good, a);
    }
    hide Core;
  }

  lemma {:induction false} ComputeIn(mem: Memory, good: set<Addr>, region: iset<Addr>, a: Addr, st: State, pending: set<Addr>)
    requires Good(mem, good) && InvIn(mem, good, region, st, pending) && a in mem && a in region
    ensures var (v, st') := Compute(mem, a, st);
            && InvIn(mem, good, region, st', pending) && CleanSince(mem, st, st')
            && (v.NoneV? || IsType(st'.store, v))
            && (a in good ==> IsType(st'.store, v) && Matches(mem, mem[a], st', st'.store[v.r]))
    decreases mem.Keys - st.cache.Keys, 3, 0
  {
    match mem[a]
    case Simple(_) => LeafIn(mem, good, region, a, st, pending);
    case Func(_) => LeafIn(mem, good, region, a, st, pending);
    case Interface(_) => LeafIn(mem, good, region, a, st, pending);
    case Array(_, _) => WrappedIn(mem, good, region, a, st, pending);
    case Slice(_) => WrappedIn(mem, good, region, a, st, pending);
    case Pointer(_) => WrappedIn(mem, good, region, a, st, pending);
    case Map(_, _) => MapIn(mem, good, region, a, st, pending);
    case Struct(fields, size, align) =>
      if a in good {
        GoodParts(mem, good, a);
      }
      assert Refs(mem[a]) == FieldTypes(fields);
      DecodeAllIn(mem, good, region, FieldTypes(fields), st, pending);
      hide InvIn;
      hide DecodeAll;
      hide ResultOk;
      var (vals, st1) := DecodeAll(mem, FieldTypes(fields), st);
      StructIn(mem, good, region, a, st1, pending, fields, size, align, vals);
    case Unsupported =>
      hide InvIn;
      if a in good {
        GoodParts(mem, good, a);
      }
  }

  lemma RefsInside(mem: Memory, region: iset<Addr>, a: Addr)
    requires Closed(mem, region) && a in mem && a in region
    ensures forall i | 0 <= i < |Refs(mem[a])| :: Refs(mem[a])[i] in region
  {
  }

  /** Types without components. */
  lemma {:induction false} LeafIn(mem: Memory, good: set<Addr>, region: iset<Addr>, a: Addr, st: State, pending: set<Addr>)
    requires Good(mem, good) && InvIn(mem, good, region, st, pending) && a in mem && a in region
    requires mem[a].Simple? || mem[a].Func? || mem[a].Interface?
    ensures var (v, st') := Compute(mem, a, st);
            && InvIn(mem, good, region, st', pending) && CleanSince(mem, st, st')
            && IsType(st'.store, v) && Matches(mem, mem[a], st', st'.store[v.r])
    decreases mem.Keys - st.cache.Keys, 2, 0
  {
    RefsInside(mem, region, a);
    hide InvIn;
    hide DecodeAll;
    match mem[a]
    case Simple(name) => AllocIn(mem, good, region, st, pending, Ty(BasicS(name), []));
    case Func(params) =>
      assert Refs(mem[a]) == params;
      DecodeAllIn(mem, good, region, params, st, pending);
      AllocIn(mem, good, region, DecodeAll(mem, params, st).1, pending, Ty(BasicS("funcptr"), []));
    case Interface(methods) =>
      if methods == [] {
        AllocIn(mem, good, region, st, pending, Ty(BasicS("any"), []));
      } else {
        assert Refs(mem[a]) == methods;
        DecodeAllIn(mem, good, region, methods, st, pending);
        AllocIn(mem, good, region, DecodeAll(mem, methods, st).1, pending, Ty(BasicS("interface"), []));
      }
  }

  /** Arrays, slices and pointers. */
  lemma {:induction false} WrappedIn(mem: Memory, good: set<Addr>, region: iset<Addr>, a: Addr, st: State, pending: set<Addr>)
    requires Good(mem, good) && InvIn(mem, good, region, st, pending) && a in mem && a in region
    requires mem[a].Array? || mem[a].Slice? || mem[a].Pointer?
    ensures var (v, st') := Compute(mem, a, st);
            && InvIn(mem, good, region, st', pending) && CleanSince(mem, st, st')
            && (v.NoneV? || IsType(st'.store, v))
            && (a in good ==> IsType(st'.store, v) && Matches(mem, mem[a], st', st'.store[v.r]))
    decreases mem.Keys - st.cache.Keys, 1, 1
  {
    var elem := mem[a].elem;
    assert Refs(mem[a])[0] == elem;
    hide InvIn;
    hide Decode;
    if a in good {
      GoodParts(mem, good, a);
      assert Parts(mem[a])[0] == elem;
    }
    WrapIn(mem, good, region, a, st, pending, elem, match mem[a] case Array(_, len) => ArrayS(len) case Slice(_) => SliceS case _ => PointerS);
    hide Wraps;
    hide Good;
  }

  lemma {:induction false} WrapIn(mem: Memory, good: set<Addr>, region: iset<Addr>, a: Addr, st: State, pending: set<Addr>, elem: Addr, shape: Shape)
    requires Good(mem, good) && InvIn(mem, good, region, st, pending) && a in mem && elem in region
    requires a in good ==> elem in good
    ensures var (v, st1) := Decode(mem, elem, st);
            && InvIn(mem, good, region, st1, pending) && CleanSince(mem, st, st1)
            && (a in good ==> !v.NoneV?)
            && (!v.NoneV? ==>
                  var (w, st2) := Alloc(st1, Ty(shape, [v]));
                  && InvIn(mem, good, region, st2, pending) && IsType(st2.store, w)
                  && (a in good ==> Wraps(st2, st2.store[w.r], shape, elem)))
    decreases mem.Keys - st.cache.Keys, 1, 0
  {
    DecodeIn(mem, good, region, elem, st, pending);
    var (v, st1) := Decode(mem, elem, st);
    if !v.NoneV? {
      AllocIn(mem, good, region, st1, pending, Ty(shape, [v]));
      if a in good {
        RepresentsGrows(st1, Alloc(st1, Ty(shape, [v])).1, v, elem, 0);
      }
    }
  }

  lemma {:induction false} MapIn(mem: Memory, good: set<Addr>, region: iset<Addr>, a: Addr, st: State, pending: set<Addr>)
    requires Good(mem, good) && InvIn(mem, good, region, st, pending) && a in mem && a in region && mem[a].Map?
    ensures var (v, st') := Compute(mem, a, st);
            && InvIn(mem, good, region, st', pending) && CleanSince(mem, st, st')
            && (v.NoneV? || IsType(st'.store, v))
            && (a in good ==> IsType(st'.store, v) && Matches(mem, mem[a], st', st'.store[v.r]))
    decreases mem.Keys - st.cache.Keys, 1, 0
  {
    var key, val := mem[a].key, mem[a].val;
    assert Refs(mem[a])[0] == key && Refs(mem[a])[1] == val;
    if a in good {
      GoodParts(mem, good, a);
      assert Parts(mem[a])[0] == key && Parts(mem[a])[1] == val;
    }
    DecodeIn(mem, good, region, key, st, pending);
    hide InvIn;
    hide Decode;
    var (k, st1) := Decode(mem, key, st);
    if !k.NoneV? {
      DecodeIn(mem, good, region, val, st1, pending);
      var (v, st2) := Decode(mem, val, st1);
      SinceTrans(mem, st, st1, st2);
      if !v.NoneV? {
        if a in good {
          RepresentsGrows(st1, st2, k, key, 0);
        }
        MapObjectsIn(mem, good, region, a, st2, pending, k, v);
      }
    }
  }

  /** The two objects of a map type. */
  lemma MapObjectsIn(mem: Memory, good: set<Addr>, region: iset<Addr>, a: Addr, st: State, pending: set<Addr>, k: Val, v: Val)
    requires InvIn(mem, good, region, st, pending) && a in mem && mem[a].Map?
    requires k.Ref? && k.r < |st.store| && v.Ref? && v.r < |st.store|
    requires a in good ==> Represents(st, k, mem[a].key) && Represents(st, v, mem[a].val)
    ensures var (m, st1) := Alloc(st, MapO(k, v));
            var (p, st2) := Alloc(st1, Ty(PointerS, [m]));
            && InvIn(mem, good, region, st2, pending) && IsType(st2.store, p)
            && (a in good ==> Matches(mem, mem[a], st2, st2.store[p.r]))
  {
    AllocIn(mem, good, region, st, pending, MapO(k, v));
    var (m, st1) := Alloc(st, MapO(k, v));
    AllocIn(mem, good, region, st1, pending, Ty(PointerS, [m]));
    var (p, st2) := Alloc(st1, Ty(PointerS, [m]));
    if a in good {
      RepresentsGrows(st, st2, k, mem[a].key, 0);
      RepresentsGrows(st, st2, v, mem[a].val, 0);
    }
  }

  lemma StructIn(mem: Memory, good: set<Addr>, region: iset<Addr>, a: Addr, st: State, pending: set<Addr>,
                  fields: seq<FieldDesc>, size: nat, align: nat, vals: seq<Val>)
    requires InvIn(mem, good, region, st, pending) && a in mem && mem[a] == Struct(fields, size, align)
    requires |vals| == |fields|
    requires forall i | 0 <= i < |fields| :: ResultOk(mem, good, FieldTypes(fields)[i], vals[i], st, pending)
    requires a in good ==> forall i | 0 <= i < |fields| :: Parts(mem[a])[i] in good || Failing(mem, Parts(mem[a])[i])
    ensures var (v, st') := Alloc(st, Ty(StructShape(Sorted(fields), size, align), StructComps(fields, vals)));
            && InvIn(mem, good, region, st', pending) && IsType(st'.store, v)
            && (a in good ==> Matches(mem, mem[a], st', st'.store[v.r]))
  {
    var o := Ty(StructShape(Sorted(fields), size, align), StructComps(fields, vals));
    AllocIn(mem, good, region, st, pending, o);
    var st' := Alloc(st, o).1;
    var order := FieldOrder(Offsets(fields), |fields|);
    forall i | 0 <= i < |fields| && a in good
      ensures FieldMatches(mem, st', o.comps[i], Sorted(fields)[i].ty)
    {
      assert Parts(mem[a])[order[i]] == FieldTypes(fields)[order[i]];
      assert ResultOk(mem, good, FieldTypes(fields)[order[i]], vals[order[i]], st, pending);
      if !Failing(mem, fields[order[i]].ty) {
        RepresentsGrows(st, st', vals[order[i]], fields[order[i]].ty, 0);
      }
    }
  }

  lemma {:induction false} DecodeAllIn(mem: Memory, good: set<Addr>, region: iset<Addr>, addrs: seq<Addr>, st: State, pending: set<Addr>)
    requires Good(mem, good) && InvIn(mem, good, region, st, pending)
    requires forall i | 0 <= i < |addrs| :: addrs[i] in region
    ensures var (vs, st') := DecodeAll(mem, addrs, st);
            && InvIn(mem, good, region, st', pending) && CleanSince(mem, st, st')
            && forall i | 0 <= i < |addrs| :: ResultOk(mem, good, addrs[i], vs[i], st', pending)
    decreases mem.Keys - st.cache.Keys, 1, |addrs|
  {
    if addrs != [] {
      DecodeIn(mem, good, region, addrs[0], st, pending);
      hide InvIn;
      hide Decode;
      hide Failing;
      var (v, st1) := Decode(mem, addrs[0], st);
      DecodeAllIn(mem, good, region, addrs[1..], st1, pending);
      var (vs, st2) := DecodeAll(mem, addrs[1..], st1);
      SinceTrans(mem, st, st1, st2);
      if addrs[0] in good {
        RepresentsGrows(st1, st2, v, addrs[0], 0);
      }
      forall i | 0 <= i < |addrs| ensures ResultOk(mem, good, addrs[i], ([v] + vs)[i], st2, pending) {
        if i > 0 {
          assert addrs[i] == addrs[1..][i - 1] && ([v] + vs)[i] == vs[i - 1];
        }
      }
    }
  }

  // ----- Everywhere -----

  lemma DecodeInv(mem: Memory, good: set<Addr>, a: Addr, st: State, pending: set<Addr>)
    requires Good(mem, good) && Inv(mem, good, st, pending)
    ensures var (v, st') := Decode(mem, a, st);
            Inv(mem, good, st', pending) && ResultOk(mem, good, a, v, st', pending)
  {
    DecodeIn(mem, good, EVERYWHERE, a, st, pending);
    hide InvIn;
  }

  lemma ComputeInv(mem: Memory, good: set<Addr>, a: Addr, st: State, pending: set<Addr>)
    requires Good(mem, good) && Inv(mem, good, st, pending) && a in mem
    ensures var (v, st') := Compute(mem, a, st);
            && Inv(mem, good, st', pending)
            && (v.NoneV? || IsType(st'.store, v))
            && (a in good ==> IsType(st'.store, v) && Matches(mem, mem[a], st', st'.store[v.r]))
  {
    ComputeIn(mem, good, EVERYWHERE, a, st, pending);
    hide InvIn;
  }

  lemma DecodeAllInv(mem: Memory, good: set<Addr>, addrs: seq<Addr>, st: State, pending: set<Addr>)
    requires Good(mem, good) && Inv(mem, good, st, pending)
    ensures var (vs, st') := DecodeAll(mem, addrs, st);
            && Inv(mem, good, st', pending)
            && forall i | 0 <= i < |addrs| :: ResultOk(mem, good, addrs[i], vs[i], st', pending)
  {
    DecodeAllIn(mem, good, EVERYWHERE, addrs, st, pending);
    hide InvIn;
  }

  lemma AllocInv(mem: Memory, good: set<Addr>, st: State, pending: set<Addr>, o: Obj)
    requires Inv(mem, good, st, pending)
    requires !o.Backref?
    requires forall i | 0 <= i < |Kids(o)| && Kids(o)[i].Ref? :: Kids(o)[i].r < |st.store|
    ensures Inv(mem, good, Alloc(st, o).1, pending)
  {
    AllocIn(mem, good, EVERYWHERE, st, pending, o);
    hide InvIn;
  }

  lemma EnterInv(mem: Memory, good: set<Addr>, st: State, pending: set<Addr>, a: Addr, st1: State)
    requires Inv(mem, good, st, pending) && a !in st.cache && !Failing(mem, a)
    requires st1 == State(st.cache[a := Ref(|st.store|)], st.store + [Backref(a)])
    ensures Inv(mem, good, st1, pending + {a})
  {
    EnterIn(mem, good, EVERYWHERE, st, pending, a, st1);
    hide InvIn;
  }
}
