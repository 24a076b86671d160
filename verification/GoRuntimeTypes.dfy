/**
  decode_runtime_type as a whole: when it ends, and when the cyclic graph it
  returns is the type graph in memory (pwndbg/aglib/godbg.py:544-763).
 */
module GoRuntimeTypes {
  import opened GoDecode
  import opened GoDecodeProofs
  import opened GoUnfold
  import opened GoKnot
  import opened GoKnotTrees
  import opened GoKnotExact
  import opened GoNesting

  lemma DecodedIsReady(mem: Memory, a: Addr)
    ensures var (v, st) := Decode(mem, a, EMPTY);
            Ready(st.cache, st.store) && (v.NoneV? || IsType(st.store, v))
  {
    EmptyInv(mem, {});
    DecodeInv(mem, {}, a, EMPTY, {});
  }

  /**
    Whenever the traversal ends, the result unfolds as the type graph in memory
    does to exactly the depths that show no placeholder.  Every depth is one if
    no reachable holder was missed, and only then if open objects are stored once.
   */
  lemma DecodedGraphIsMemory(mem: Memory, good: set<Addr>, a: Addr, depth: nat)
    requires Good(mem, good) && a in good
    requires var (v, st) := Decode(mem, a, EMPTY); Remove(st.cache, st.store, v, depth).Done?
    ensures var (v, st) := Decode(mem, a, EMPTY);
            var out := Remove(st.cache, st.store, v, depth);
            && v.Ref? && out.v == v
            && (forall n: nat :: PlainTree(out.store, v, n) == MemTree(mem, a, n) <==> !HasPlaceholder(PlainTree(out.store, v, n)))
            && (Complete(st, v.r) ==> forall n: nat :: PlainTree(out.store, v, n) == MemTree(mem, a, n))
            && (OnePath(st.store, v.r) && (forall n: nat :: PlainTree(out.store, v, n) == MemTree(mem, a, n)) ==> Complete(st, v.r))
  {
    var (v, st) := Decode(mem, a, EMPTY);
    DecodedIsReady(mem, a);
    DecodeFaithful(mem, good, a, 0);
    forall n: nat ensures GraphTree(st, v, n) == MemTree(mem, a, n) {
      DecodeFaithful(mem, good, a, n);
    }
    OutcomeIsRoot(st, v, depth);
    hide Decode;
    hide Good;
    hide MemTree;
    hide Remove;
    RunShowsGraph(st, v.r, depth);
    if OnePath(st.store, v.r) {
      ReplacedExactlyWhenComplete(st, v.r, depth);
    }
  }

  lemma TypeInStore(st: State, v: Val)
    requires IsType(st.store, v)
    ensures v.Ref? && v.r < |st.store|
  {
  }

  lemma OutcomeIsRoot(st: State, v: Val, depth: nat)
    requires IsType(st.store, v) && Remove(st.cache, st.store, v, depth).Done?
    ensures Remove(st.cache, st.store, v, depth).v == v
  {
  }

  lemma {:induction false} ReachesTypes(st: State, v: Val, x: nat, n: nat)
    requires Reaches(st, v, x, n)
    ensures IsType(st.store, Ref(x))
    decreases n
  {
    var w := Resolve(st.cache, st.store, v);
    if w.r != x {
      var i :| 0 <= i < |Kids(st.store[w.r])| && Reaches(st, Kids(st.store[w.r])[i], x, n - 1);
      ReachesTypes(st, Kids(st.store[w.r])[i], x, n - 1);
    }
  }

  /** Without mentions in functions and interfaces, nothing is missed and every placeholder closes a cycle. */
  lemma PlainDecoded(mem: Memory, p: set<Addr>, a: Addr)
    requires Plain(mem, p) && a in p
    ensures var (v, st) := Decode(mem, a, EMPTY);
            IsType(st.store, v) && Ready(st.cache, st.store) && Closes(st.cache, st.store, v.r) && Complete(st, v.r)
  {
    var (v, st) := Decode(mem, a, EMPTY);
    DecodedIsReady(mem, a);
    DecodeFaithful(mem, p, a, 0);
    EmptyInv(mem, p);
    DecodePlain(mem, p, a, EMPTY, {});
    forall h: nat, k: nat | Under(st.store, v.r, h) && HasKid(st.store, h, k) && st.store[Kid(st.store, h, k)].Backref?
      ensures ClosesAt(st.cache, st.store, h, k)
    {
      assert HeldAt(st, {}, h, k);
    }
    forall x, n: nat | Reaches(st, Ref(v.r), x, n) && Holder(st.store, x) ensures Under(st.store, v.r, x) {
      ReachesTypes(st, Ref(v.r), x, n);
    }
  }

  /**
    When decoding with placeholder removal ends.  It ends if every object that
    contains a placeholder is stored in one place, and, if every placeholder
    stands for an object it is stored in, only then.  In general it ends exactly
    when one level of recursion for every decoded object suffices, and never
    when an object with a placeholder that closes a cycle is stored twice.  What
    does not end runs out of depth.
   */
  lemma KnotTying(mem: Memory, good: set<Addr>, a: Addr)
    requires Good(mem, good) && a in good
    ensures var (v, st) := Decode(mem, a, EMPTY);
            && v.Ref?
            && (OnePath(st.store, v.r) ==> Ends(st.cache, st.store, v))
            && (Closes(st.cache, st.store, v.r) && Ends(st.cache, st.store, v) ==> OnePath(st.store, v.r))
            && (Ends(st.cache, st.store, v) <==> Remove(st.cache, st.store, v, |st.store|).Done?)
            && (Ends(st.cache, st.store, v) ==> OneClosingPath(st.cache, st.store, v.r))
            && (forall depth: nat | Remove(st.cache, st.store, v, depth).Raised? ::
                  Remove(st.cache, st.store, v, depth).error == RecursionLimit)
  {
    DecodedIsReady(mem, a);
    DecodeFaithful(mem, good, a, 0);
    var (v, st) := Decode(mem, a, EMPTY);
    hide *;
    TypeInStore(st, v);
    EndsWithinStore(st.cache, st.store, v);
    EndsConditions(st.cache, st.store, v.r);
    if Closes(st.cache, st.store, v.r) {
      EndsExactlyOnOnePath(st.cache, st.store, v.r);
    }
  }

  /**
    Without functions and interfaces that mention types, decoding with
    placeholder removal ends if and only if every object that contains a
    placeholder is stored in one place.
   */
  lemma PlainKnotTying(mem: Memory, p: set<Addr>, a: Addr)
    requires Plain(mem, p) && a in p
    ensures var (v, st) := Decode(mem, a, EMPTY);
            v.Ref? && (Ends(st.cache, st.store, v) <==> OnePath(st.store, v.r))
  {
    PlainDecoded(mem, p, a);
    KnotTying(mem, p, a);
  }

  /** When no reachable holder is missed and the traversal ends, no placeholder is left and the cyclic result is memory's graph. */
  lemma KnotTiedIsMemory(mem: Memory, good: set<Addr>, a: Addr, depth: nat, n: nat)
    requires Good(mem, good) && a in good
    requires var (v, st) := Decode(mem, a, EMPTY);
             v.Ref? && Complete(st, v.r) && Remove(st.cache, st.store, v, depth).Done?
    ensures var (v, st) := Decode(mem, a, EMPTY);
            var out := Remove(st.cache, st.store, v, depth);
            && out.v == v && PlainTree(out.store, v, n) == MemTree(mem, a, n)
            && !HasPlaceholder(PlainTree(out.store, v, n))
  {
    DecodedGraphIsMemory(mem, good, a, depth);
  }

  /** Without functions and interfaces that mention types none is missed. */
  lemma PlainKnotTiedIsMemory(mem: Memory, p: set<Addr>, a: Addr, depth: nat, n: nat)
    requires Plain(mem, p) && a in p
    requires var (v, st) := Decode(mem, a, EMPTY); Remove(st.cache, st.store, v, depth).Done?
    ensures var (v, st) := Decode(mem, a, EMPTY);
            var out := Remove(st.cache, st.store, v, depth);
            && out.v == v && PlainTree(out.store, v, n) == MemTree(mem, a, n)
            && !HasPlaceholder(PlainTree(out.store, v, n))
  {
    PlainDecoded(mem, p, a);
    KnotTiedIsMemory(mem, p, a, depth, n);
  }
}
