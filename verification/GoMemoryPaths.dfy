/**
  When decode_runtime_type ends, said about the types in memory alone
  (pwndbg/aglib/godbg.py:544-763): paths between types, and how the object graph
  that the decoder builds follows them.
 */
module GoMemoryPaths {
  import opened GoDecode
  import opened GoDecodeProofs
  import opened GoUnfold
  import opened GoKnot
  import opened GoKnotTrees
  import opened GoKnotExact
  import opened GoNesting
  import opened GoRuntimeTypes
  import opened GoPaths
  import opened GoFresh

  // ----- The type graph in memory -----

  /** The types stored in the type at `a`, in the order of the decoded components. */
  function Stored(mem: Memory, a: Addr): seq<Addr> {
    if a !in mem then []
    else if mem[a].Struct? then FieldTypes(Sorted(mem[a].fields))
    else Parts(mem[a])
  }

  /** From `a` on, always into the stored type with the next number. */
  predicate IsPath(mem: Memory, a: Addr, path: seq<nat>)
    decreases |path|
  {
    path == [] || (path[0] < |Stored(mem, a)| && IsPath(mem, Stored(mem, a)[path[0]], path[1..]))
  }

  function PathEnd(mem: Memory, a: Addr, path: seq<nat>): Addr
    requires IsPath(mem, a, path)
    decreases |path|
  {
    if path == [] then a else PathEnd(mem, Stored(mem, a)[path[0]], path[1..])
  }

  /** The types on a path, both ends included. */
  function Stops(mem: Memory, a: Addr, path: seq<nat>): (stops: seq<Addr>)
    requires IsPath(mem, a, path)
    ensures |stops| == |path| + 1 && stops[0] == a && stops[|path|] == PathEnd(mem, a, path)
    decreases |path|
  {
    [a] + if path == [] then [] else Stops(mem, Stored(mem, a)[path[0]], path[1..])
  }

  /** No type is passed twice. */
  ghost predicate SimplePath(mem: Memory, a: Addr, path: seq<nat>) {
    && IsPath(mem, a, path)
    && var stops := Stops(mem, a, path);
    && forall i, j | 0 <= i < j < |stops| :: stops[i] != stops[j]
  }

  /** From `x` one comes to a type that is stored in itself, directly or not. */
  ghost predicate Cyclic(mem: Memory, x: Addr) {
    exists p, q ::
      && IsPath(mem, x, p) && IsPath(mem, PathEnd(mem, x, p), q)
      && q != [] && PathEnd(mem, PathEnd(mem, x, p), q) == PathEnd(mem, x, p)
  }

  /** One simple path at most leads from the root to each type with a cycle behind it. */
  ghost predicate OneSimplePath(mem: Memory, root: Addr) {
    forall p, q | SimplePath(mem, root, p) && SimplePath(mem, root, q) && PathEnd(mem, root, p) == PathEnd(mem, root, q)
                  && Cyclic(mem, PathEnd(mem, root, p)) :: p == q
  }

  // ----- The object graph and memory -----

  /** What decoding the plain type `root` leaves. */
  ghost predicate World(mem: Memory, p: set<Addr>, st: State, root: Addr) {
    && Plain(mem, p) && Inv(mem, p, st, {}) && Fresh(mem, st) && Held(st, {})
    && root in p && root in st.cache && st.cache[root].Ref? && Nested(st.store, 0, st.cache[root])
  }

  ghost predicate Member(p: set<Addr>, st: State, x: Addr) {
    x in p && x in st.cache && st.cache[x].Ref?
  }

  /** The object that holds the components of the type at `x`. */
  function Spot(mem: Memory, st: State, x: Addr): nat
    requires x in st.cache && st.cache[x].Ref?
  {
    var r := st.cache[x].r;
    if x in mem && mem[x].Map? && r > 0 then r - 1 else r
  }

  /** The components of a map are one object deeper. */
  function Lead(mem: Memory, x: Addr): seq<nat> {
    if x in mem && mem[x].Map? then [0] else []
  }

  lemma TypeOf(mem: Memory, p: set<Addr>, st: State, root: Addr, x: Addr)
    requires World(mem, p, st, root) && Member(p, st, x)
    ensures x in mem && IsType(st.store, st.cache[x]) && Matches(mem, mem[x], st, st.store[st.cache[x].r])
    ensures st.store[st.cache[x].r].Ty? && Ordered(st.store)
    ensures mem[x].Map? ==> PointsBelow(st.store, st.cache[x].r)
  {
    assert AgreesAt(mem, st, x);
  }

  /** Component `i` of the type at `x` is there and stands for its type. */
  ghost predicate SlotOk(mem: Memory, p: set<Addr>, st: State, x: Addr, i: nat)
    requires x in st.cache && st.cache[x].Ref? && i < |Stored(mem, x)|
  {
    && Member(p, st, Stored(mem, x)[i])
    && HasKid(st.store, Spot(mem, st, x), i)
    && Represents(st, Kids(st.store[Spot(mem, st, x)])[i], Stored(mem, x)[i])
  }

  lemma SpotOf(mem: Memory, p: set<Addr>, st: State, root: Addr, x: Addr)
    requires World(mem, p, st, root) && Member(p, st, x)
    ensures Spot(mem, st, x) < |st.store| && |Kids(st.store[Spot(mem, st, x)])| == |Stored(mem, x)|
    ensures x in mem && mem[x].Map? <==> st.store[Spot(mem, st, x)].MapO?
    ensures StorePath(st.store, st.cache[x].r, Lead(mem, x))
    ensures StoreEnd(st.store, st.cache[x].r, Lead(mem, x)) == Spot(mem, st, x)
  {
    TypeOf(mem, p, st, root, x);
    hide World;
    var r := st.cache[x].r;
    if mem[x].Map? {
      assert Kids(st.store[r]) == [Ref(r - 1)];
      assert HasKid(st.store, r, 0);
      OneStep(st.store, r, 0);
    } else {
      hide Sorted;
      hide StructShape;
      assert StorePath(st.store, r, []);
    }
  }

  lemma RepresentedMember(mem: Memory, p: set<Addr>, st: State, root: Addr, v: Val, x: Addr)
    requires World(mem, p, st, root) && x in p && Represents(st, v, x)
    ensures Member(p, st, x) && v.Ref? && v.r < |st.store|
  {
    GoodNotFailing(mem, p, x);
    if IsBackref(st.store, v, x) {
      assert x in st.cache;
      assert AgreesAt(mem, st, x);
    }
  }

  lemma PartOf(mem: Memory, p: set<Addr>, x: Addr, i: nat)
    requires Plain(mem, p) && x in p && i < |Stored(mem, x)|
    ensures x in mem && Stored(mem, x)[i] in p && !Failing(mem, Stored(mem, x)[i])
  {
    assert PlainAt(mem, p, x);
    if mem[x].Struct? {
      StoredFieldPart(mem, x, i);
    }
    GoodNotFailing(mem, p, Stored(mem, x)[i]);
    hide Failing;
  }

  lemma StoredFieldPart(mem: Memory, x: Addr, i: nat)
    requires x in mem && mem[x].Struct? && i < |Stored(mem, x)|
    ensures Stored(mem, x)[i] in Parts(mem[x])
  {
    var fields := mem[x].fields;
    FieldInTypes(fields, Sorted(fields)[i]);
    hide Sorted;
  }

  lemma FieldInTypes(fields: seq<FieldDesc>, f: FieldDesc)
    requires f in fields
    ensures f.ty in FieldTypes(fields)
  {
    var y: nat :| y < |fields| && fields[y] == f;
    assert FieldTypes(fields)[y] == f.ty;
  }

  lemma SlotOf(mem: Memory, p: set<Addr>, st: State, root: Addr, x: Addr, i: nat)
    requires World(mem, p, st, root) && Member(p, st, x) && i < |Stored(mem, x)|
    ensures SlotOk(mem, p, st, x, i)
  {
    PartOf(mem, p, x, i);
    TypeOf(mem, p, st, root, x);
    SpotOf(mem, p, st, root, x);
    SlotRepresents(mem, p, st, x, i);
    RepresentedMember(mem, p, st, root, Kids(st.store[Spot(mem, st, x)])[i], Stored(mem, x)[i]);
    hide World;
  }

  lemma SlotRepresents(mem: Memory, p: set<Addr>, st: State, x: Addr, i: nat)
    requires Member(p, st, x) && x in mem && i < |Stored(mem, x)| && !Failing(mem, Stored(mem, x)[i])
    requires IsType(st.store, st.cache[x]) && Matches(mem, mem[x], st, st.store[st.cache[x].r])
    requires mem[x].Map? ==> PointsBelow(st.store, st.cache[x].r)
    requires Spot(mem, st, x) < |st.store| && i < |Kids(st.store[Spot(mem, st, x)])|
    ensures Represents(st, Kids(st.store[Spot(mem, st, x)])[i], Stored(mem, x)[i])
  {
    hide Failing;
    hide Sorted;
    hide StructShape;
    hide Represents;
  }

  // ----- Forward components -----

  /** Component `i` is the object of its type, not a placeholder. */
  ghost predicate ForwardSlot(mem: Memory, st: State, x: Addr, i: nat) {
    && x in st.cache && st.cache[x].Ref?
    && var s := Spot(mem, st, x);
    && HasKid(st.store, s, i) && !st.store[Kid(st.store, s, i)].Backref?
  }

  ghost predicate AllForward(mem: Memory, st: State, a: Addr, path: seq<nat>)
    requires IsPath(mem, a, path)
    decreases |path|
  {
    path == [] || (ForwardSlot(mem, st, a, path[0]) && AllForward(mem, st, Stored(mem, a)[path[0]], path[1..]))
  }

  /** The way through the object graph that follows `path`. */
  function Trans(mem: Memory, a: Addr, path: seq<nat>): seq<nat>
    requires IsPath(mem, a, path)
    decreases |path|
  {
    if path == [] then [] else Lead(mem, a) + ([path[0]] + Trans(mem, Stored(mem, a)[path[0]], path[1..]))
  }

  lemma ForwardKid(mem: Memory, p: set<Addr>, st: State, root: Addr, x: Addr, i: nat)
    requires World(mem, p, st, root) && Member(p, st, x) && i < |Stored(mem, x)|
    ensures Member(p, st, Stored(mem, x)[i]) && HasKid(st.store, Spot(mem, st, x), i)
    ensures var q := Kid(st.store, Spot(mem, st, x), i);
            if ForwardSlot(mem, st, x, i) then q == st.cache[Stored(mem, x)[i]].r
            else st.store[q] == Backref(Stored(mem, x)[i])
  {
    SlotOf(mem, p, st, root, x, i);
    hide World;
  }

  /** A forward path is followed by the objects. */
  lemma {:induction false} TransPath(mem: Memory, p: set<Addr>, st: State, root: Addr, a: Addr, path: seq<nat>)
    requires World(mem, p, st, root) && Member(p, st, a) && IsPath(mem, a, path) && AllForward(mem, st, a, path)
    ensures Member(p, st, PathEnd(mem, a, path))
    ensures StorePath(st.store, st.cache[a].r, Trans(mem, a, path))
    ensures StoreEnd(st.store, st.cache[a].r, Trans(mem, a, path)) == st.cache[PathEnd(mem, a, path)].r
    decreases |path|
  {
    TypeOf(mem, p, st, root, a);
    if path != [] {
      var i, next := path[0], Stored(mem, a)[path[0]];
      ForwardKid(mem, p, st, root, a, i);
      SpotOf(mem, p, st, root, a);
      TransPath(mem, p, st, root, next, path[1..]);
      hide World;
      hide ForwardSlot;
      FirstStep(st.store, Spot(mem, st, a), i, Trans(mem, next, path[1..]));
      JoinPaths(st.store, st.cache[a].r, Lead(mem, a), [i] + Trans(mem, next, path[1..]));
    }
  }

  /** The way through the objects determines the path. */
  lemma {:induction false} PrefixTrans(mem: Memory, a: Addr, u: seq<nat>, w: seq<nat>)
    requires IsPath(mem, a, u) && IsPath(mem, a, w)
    requires Trans(mem, a, u) <= Trans(mem, a, w) + Lead(mem, PathEnd(mem, a, w))
    ensures u <= w
    decreases |u|
  {
    hide Lead;
    if u != [] {
      LongerThanLead(mem, a, u, w);
      var next := Stored(mem, a)[w[0]];
      Regrouped(Lead(mem, a), w[0], Trans(mem, next, w[1..]), Lead(mem, PathEnd(mem, next, w[1..])));
      SameHop(Lead(mem, a), u[0], w[0], Trans(mem, Stored(mem, a)[u[0]], u[1..]),
              Trans(mem, next, w[1..]) + Lead(mem, PathEnd(mem, next, w[1..])));
      PrefixTrans(mem, next, u[1..], w[1..]);
      hide Trans;
      assert u == [u[0]] + u[1..] && w == [w[0]] + w[1..];
    }
  }

  lemma LongerThanLead(mem: Memory, a: Addr, u: seq<nat>, w: seq<nat>)
    requires IsPath(mem, a, u) && IsPath(mem, a, w) && u != []
    requires Trans(mem, a, u) <= Trans(mem, a, w) + Lead(mem, PathEnd(mem, a, w))
    ensures w != []
  {
    hide Lead;
    assert |Trans(mem, a, u)| > |Lead(mem, a)|;
  }

  lemma Regrouped(lead: seq<nat>, i: nat, s: seq<nat>, t: seq<nat>)
    ensures lead + ([i] + s) + t == lead + ([i] + (s + t))
  {
  }

  lemma SameHop(lead: seq<nat>, i: nat, j: nat, s: seq<nat>, t: seq<nat>)
    requires lead + ([i] + s) <= lead + ([j] + t)
    ensures i == j && s <= t
  {
    var u, w := lead + ([i] + s), lead + ([j] + t);
    assert u[|lead|] == i && w[|lead|] == j;
    assert u[|lead| + 1..] == s && w[|lead| + 1..] == t;
  }

  lemma TransInjective(mem: Memory, a: Addr, u: seq<nat>, w: seq<nat>)
    requires IsPath(mem, a, u) && IsPath(mem, a, w) && Trans(mem, a, u) == Trans(mem, a, w)
    ensures u == w
  {
    PrefixTrans(mem, a, u, w);
    PrefixTrans(mem, a, w, u);
  }

  // ----- From the objects back to memory -----

  /** The object at the end of `path`, or the one that holds its components. */
  ghost predicate EndsAt(mem: Memory, st: State, a: Addr, s: seq<nat>, path: seq<nat>, x: nat)
    requires IsPath(mem, a, path)
  {
    var end := PathEnd(mem, a, path);
    && end in st.cache && st.cache[end].Ref?
    && ((s == Trans(mem, a, path) && x == st.cache[end].r)
        || (s == Trans(mem, a, path) + Lead(mem, end) && x == Spot(mem, st, end)))
  }

  /** Every way through the objects that does not end at a placeholder follows a forward path. */
  lemma {:induction false} Back(mem: Memory, p: set<Addr>, st: State, root: Addr, a: Addr, s: seq<nat>) returns (path: seq<nat>)
    requires World(mem, p, st, root) && Member(p, st, a)
    requires StorePath(st.store, st.cache[a].r, s) && !st.store[StoreEnd(st.store, st.cache[a].r, s)].Backref?
    ensures IsPath(mem, a, path) && AllForward(mem, st, a, path)
    ensures EndsAt(mem, st, a, s, path, StoreEnd(st.store, st.cache[a].r, s))
    decreases |s|
  {
    TypeOf(mem, p, st, root, a);
    SpotOf(mem, p, st, root, a);
    var r, lead := st.cache[a].r, Lead(mem, a);
    if |s| <= |lead| {
      path := [];
      ShortWay(mem, st, a, s);
    } else {
      var i := AfterLead(mem, p, st, root, a, s);
      ForwardKid(mem, p, st, root, a, i);
      var q, rest := Kid(st.store, Spot(mem, st, a), i), s[|lead| + 1..];
      NoWayOn(st.store, q, rest);
      assert ForwardSlot(mem, st, a, i);
      var next := Stored(mem, a)[i];
      var w := Back(mem, p, st, root, next, rest);
      path := [i] + w;
      hide World;
      hide ForwardSlot;
      BackMore(mem, st, a, i, s, w, StoreEnd(st.store, st.cache[next].r, rest));
    }
  }

  lemma ShortWay(mem: Memory, st: State, a: Addr, s: seq<nat>)
    requires a in st.cache && st.cache[a].Ref? && StorePath(st.store, st.cache[a].r, s) && |s| <= |Lead(mem, a)|
    requires StorePath(st.store, st.cache[a].r, Lead(mem, a))
    requires StoreEnd(st.store, st.cache[a].r, Lead(mem, a)) == Spot(mem, st, a)
    requires a in mem && mem[a].Map? ==> PointsBelow(st.store, st.cache[a].r)
    ensures EndsAt(mem, st, a, s, [], StoreEnd(st.store, st.cache[a].r, s))
  {
    if s != [] {
      assert s[0] == 0;
      assert s == [0];
    }
    assert [] + Lead(mem, a) == Lead(mem, a);
  }

  lemma AfterLead(mem: Memory, p: set<Addr>, st: State, root: Addr, a: Addr, s: seq<nat>) returns (i: nat)
    requires World(mem, p, st, root) && Member(p, st, a)
    requires StorePath(st.store, st.cache[a].r, s) && |s| > |Lead(mem, a)|
    ensures i < |Stored(mem, a)| && s == Lead(mem, a) + ([i] + s[|Lead(mem, a)| + 1..])
    ensures HasKid(st.store, Spot(mem, st, a), i)
    ensures var q := Kid(st.store, Spot(mem, st, a), i);
            && StorePath(st.store, q, s[|Lead(mem, a)| + 1..])
            && StoreEnd(st.store, q, s[|Lead(mem, a)| + 1..]) == StoreEnd(st.store, st.cache[a].r, s)
  {
    TypeOf(mem, p, st, root, a);
    SpotOf(mem, p, st, root, a);
    hide World;
    hide Matches;
    var r := st.cache[a].r;
    i := s[|Lead(mem, a)|];
    AfterOne(st.store, r, s);
    if mem[a].Map? {
      AfterOne(st.store, r - 1, s[1..]);
      assert s[1..][1..] == s[2..] && s == [0] + ([s[1]] + s[2..]);
    }
  }

  lemma AfterOne(store: seq<Obj>, r: nat, s: seq<nat>)
    requires StorePath(store, r, s) && s != []
    ensures HasKid(store, r, s[0]) && StorePath(store, Kid(store, r, s[0]), s[1..]) && s == [s[0]] + s[1..]
    ensures StoreEnd(store, r, s) == StoreEnd(store, Kid(store, r, s[0]), s[1..])
  {
  }

  lemma BackMore(mem: Memory, st: State, a: Addr, i: nat, s: seq<nat>, w: seq<nat>, x: nat)
    requires i < |Stored(mem, a)| && IsPath(mem, Stored(mem, a)[i], w)
    requires ForwardSlot(mem, st, a, i) && AllForward(mem, st, Stored(mem, a)[i], w)
    requires |s| > |Lead(mem, a)| && s == Lead(mem, a) + ([i] + s[|Lead(mem, a)| + 1..])
    requires EndsAt(mem, st, Stored(mem, a)[i], s[|Lead(mem, a)| + 1..], w, x)
    ensures IsPath(mem, a, [i] + w) && AllForward(mem, st, a, [i] + w) && EndsAt(mem, st, a, s, [i] + w, x)
  {
    hide ForwardSlot;
    hide Spot;
    hide Lead;
    hide Stored;
    var next := Stored(mem, a)[i];
    PathCons(mem, st, a, i, w);
    hide IsPath;
    hide PathEnd;
    hide AllForward;
    hide Trans;
    Regrouped(Lead(mem, a), i, Trans(mem, next, w), Lead(mem, PathEnd(mem, next, w)));
  }

  lemma PathCons(mem: Memory, st: State, a: Addr, i: nat, w: seq<nat>)
    requires i < |Stored(mem, a)| && IsPath(mem, Stored(mem, a)[i], w)
    requires ForwardSlot(mem, st, a, i) && AllForward(mem, st, Stored(mem, a)[i], w)
    ensures IsPath(mem, a, [i] + w) && AllForward(mem, st, a, [i] + w)
    ensures PathEnd(mem, a, [i] + w) == PathEnd(mem, Stored(mem, a)[i], w)
    ensures Trans(mem, a, [i] + w) == Lead(mem, a) + ([i] + Trans(mem, Stored(mem, a)[i], w))
  {
    hide ForwardSlot;
    hide Lead;
    hide Stored;
    assert ([i] + w)[1..] == w;
  }

  /** No two types share the object that holds their components. */
  lemma SameSpot(mem: Memory, p: set<Addr>, st: State, root: Addr, x: Addr, y: Addr)
    requires World(mem, p, st, root) && Member(p, st, x) && Member(p, st, y)
    requires Spot(mem, st, x) == Spot(mem, st, y) || st.cache[x] == st.cache[y]
    ensures x == y
  {
    TypeOf(mem, p, st, root, x);
    TypeOf(mem, p, st, root, y);
    SpotOf(mem, p, st, root, x);
    SpotOf(mem, p, st, root, y);
  }

  /** A type's own object is not where another one's components are. */
  lemma SpotIsOwn(mem: Memory, p: set<Addr>, st: State, root: Addr, x: Addr, y: Addr)
    requires World(mem, p, st, root) && Member(p, st, x) && Member(p, st, y)
    requires st.cache[x].r == Spot(mem, st, y)
    ensures x == y && Lead(mem, x) == []
  {
    TypeOf(mem, p, st, root, x);
    SpotOf(mem, p, st, root, y);
    if !mem[y].Map? {
      SameSpot(mem, p, st, root, x, y);
    }
  }

  /** A placeholder inside the type `x`: the type that holds it, and that it stands for a type stored there. */
  lemma HolderType(mem: Memory, p: set<Addr>, st: State, root: Addr, x: Addr, g: nat, k: nat) returns (path: seq<nat>)
    requires World(mem, p, st, root) && Member(p, st, x) && Under(st.store, st.cache[x].r, g)
    requires HasKid(st.store, g, k) && st.store[Kid(st.store, g, k)].Backref?
    ensures IsPath(mem, x, path) && AllForward(mem, st, x, path)
    ensures var z := PathEnd(mem, x, path);
            && Member(p, st, z) && g == Spot(mem, st, z) && k < |Stored(mem, z)|
            && st.store[Kid(st.store, g, k)] == Backref(Stored(mem, z)[k])
  {
    var r := st.cache[x].r;
    hide *;
    var s := PathTo(st.store, r, g);
    HolderIsNoPlaceholder(st.store, g, k);
    path := Back(mem, p, st, root, x, s);
    TransPath(mem, p, st, root, x, path);
    HeldBySpot(mem, p, st, root, x, s, path, g, k);
    HeldPart(mem, p, st, root, PathEnd(mem, x, path), k);
  }

  lemma HolderIsNoPlaceholder(store: seq<Obj>, g: nat, k: nat)
    requires HasKid(store, g, k)
    ensures g < |store| && !store[g].Backref?
  {
  }

  lemma HeldBySpot(mem: Memory, p: set<Addr>, st: State, root: Addr, x: Addr, s: seq<nat>, path: seq<nat>, g: nat, k: nat)
    requires World(mem, p, st, root) && IsPath(mem, x, path) && Member(p, st, PathEnd(mem, x, path))
    requires EndsAt(mem, st, x, s, path, g)
    requires HasKid(st.store, g, k) && st.store[Kid(st.store, g, k)].Backref?
    ensures g == Spot(mem, st, PathEnd(mem, x, path))
  {
    var z := PathEnd(mem, x, path);
    TypeOf(mem, p, st, root, z);
    SpotOf(mem, p, st, root, z);
    hide World;
  }

  lemma HeldPart(mem: Memory, p: set<Addr>, st: State, root: Addr, z: Addr, k: nat)
    requires World(mem, p, st, root) && Member(p, st, z)
    requires var g := Spot(mem, st, z); HasKid(st.store, g, k) && st.store[Kid(st.store, g, k)].Backref?
    ensures k < |Stored(mem, z)| && st.store[Kid(st.store, Spot(mem, st, z), k)] == Backref(Stored(mem, z)[k])
  {
    SpotOf(mem, p, st, root, z);
    ForwardKid(mem, p, st, root, z, k);
    hide World;
  }

  // ----- Cycles and placeholders -----

  /** `path` follows `u` forward and then enters component `i`, which is a placeholder. */
  ghost predicate BackAfter(mem: Memory, st: State, a: Addr, path: seq<nat>, u: seq<nat>, i: nat)
    requires IsPath(mem, a, path)
  {
    && IsPath(mem, a, u) && AllForward(mem, st, a, u) && |u| < |path|
    && i < |Stored(mem, PathEnd(mem, a, u))| && !ForwardSlot(mem, st, PathEnd(mem, a, u), i)
    && Stops(mem, a, u) <= Stops(mem, a, path)
    && Stops(mem, a, path)[|u| + 1] == Stored(mem, PathEnd(mem, a, u))[i]
  }

  /** A path that is not forward meets a placeholder. */
  lemma {:induction false} FirstBack(mem: Memory, st: State, a: Addr, path: seq<nat>) returns (u: seq<nat>, i: nat)
    requires IsPath(mem, a, path) && !AllForward(mem, st, a, path)
    ensures BackAfter(mem, st, a, path, u, i)
    decreases |path|
  {
    EmptyPath(mem, st, a);
    var next := PathTail(mem, st, a, path);
    hide *;
    StopsCons(mem, a, path[0], path[1..]);
    if !ForwardSlot(mem, st, a, path[0]) {
      u, i := [], path[0];
      BackHere(mem, st, a, path, next);
    } else {
      u, i := FirstBack(mem, st, next, path[1..]);
      BackLater(mem, st, a, path, next, u, i);
      u := [path[0]] + u;
    }
  }

  lemma BackHere(mem: Memory, st: State, a: Addr, path: seq<nat>, next: Addr)
    requires path != [] && path[0] < |Stored(mem, a)| && next == Stored(mem, a)[path[0]] && IsPath(mem, next, path[1..])
    requires IsPath(mem, a, path) && Stops(mem, a, path) == [a] + Stops(mem, next, path[1..])
    requires !ForwardSlot(mem, st, a, path[0])
    ensures BackAfter(mem, st, a, path, [], path[0])
  {
    EmptyPath(mem, st, a);
    hide Stops;
    hide AllForward;
    hide ForwardSlot;
    hide Stored;
  }

  lemma BackLater(mem: Memory, st: State, a: Addr, path: seq<nat>, next: Addr, u: seq<nat>, i: nat)
    requires path != [] && path[0] < |Stored(mem, a)| && next == Stored(mem, a)[path[0]] && IsPath(mem, next, path[1..])
    requires IsPath(mem, a, path) && Stops(mem, a, path) == [a] + Stops(mem, next, path[1..])
    requires ForwardSlot(mem, st, a, path[0]) && BackAfter(mem, st, next, path[1..], u, i)
    ensures BackAfter(mem, st, a, path, [path[0]] + u, i)
  {
    hide Stops;
    hide AllForward;
    hide ForwardSlot;
    hide Stored;
    hide IsPath;
    hide PathEnd;
    PathCons(mem, st, a, path[0], u);
    StopsCons(mem, a, path[0], u);
  }

  lemma EmptyPath(mem: Memory, st: State, a: Addr)
    ensures IsPath(mem, a, []) && AllForward(mem, st, a, []) && PathEnd(mem, a, []) == a && Stops(mem, a, []) == [a]
  {
  }

  lemma PathTail(mem: Memory, st: State, a: Addr, path: seq<nat>) returns (next: Addr)
    requires IsPath(mem, a, path) && path != []
    ensures path == [path[0]] + path[1..]
    ensures path[0] < |Stored(mem, a)| && next == Stored(mem, a)[path[0]] && IsPath(mem, next, path[1..])
    ensures AllForward(mem, st, a, path) <==> ForwardSlot(mem, st, a, path[0]) && AllForward(mem, st, next, path[1..])
  {
    hide ForwardSlot;
    next := Stored(mem, a)[path[0]];
  }

  lemma StopsCons(mem: Memory, a: Addr, i: nat, w: seq<nat>)
    requires i < |Stored(mem, a)| && IsPath(mem, Stored(mem, a)[i], w)
    ensures IsPath(mem, a, [i] + w) && Stops(mem, a, [i] + w) == [a] + Stops(mem, Stored(mem, a)[i], w)
  {
    hide Stored;
    assert ([i] + w)[1..] == w;
  }

  /** The way to the object that holds the components of a path's end. */
  lemma SpotPath(mem: Memory, p: set<Addr>, st: State, root: Addr, a: Addr, path: seq<nat>)
    requires World(mem, p, st, root) && Member(p, st, a) && IsPath(mem, a, path) && AllForward(mem, st, a, path)
    ensures var end, s := PathEnd(mem, a, path), Trans(mem, a, path) + Lead(mem, PathEnd(mem, a, path));
            && Member(p, st, end) && StorePath(st.store, st.cache[a].r, s) && StoreEnd(st.store, st.cache[a].r, s) == Spot(mem, st, end)
            && Under(st.store, st.cache[a].r, Spot(mem, st, end))
  {
    TransPath(mem, p, st, root, a, path);
    var end := PathEnd(mem, a, path);
    SpotOf(mem, p, st, root, end);
    hide World;
    JoinPaths(st.store, st.cache[a].r, Trans(mem, a, path), Lead(mem, end));
    PathUnder(st.store, st.cache[a].r, Trans(mem, a, path) + Lead(mem, end));
  }

  lemma BackOpens(mem: Memory, p: set<Addr>, st: State, root: Addr, x: Addr, path: seq<nat>)
    requires World(mem, p, st, root) && Member(p, st, x) && IsPath(mem, x, path) && !AllForward(mem, st, x, path)
    ensures Open(st.store, st.cache[x].r)
  {
    var u, i := FirstBack(mem, st, x, path);
    SpotPath(mem, p, st, root, x, u);
    ForwardKid(mem, p, st, root, PathEnd(mem, x, u), i);
    hide World;
    assert Holder(st.store, Spot(mem, st, PathEnd(mem, x, u)));
  }

  /** Where there is a cycle there is a placeholder. */
  lemma CyclicOpens(mem: Memory, p: set<Addr>, st: State, root: Addr, x: Addr)
    requires World(mem, p, st, root) && Member(p, st, x) && Cyclic(mem, x)
    ensures Open(st.store, st.cache[x].r)
  {
    var u, w :| && IsPath(mem, x, u) && IsPath(mem, PathEnd(mem, x, u), w)
                && w != [] && PathEnd(mem, PathEnd(mem, x, u), w) == PathEnd(mem, x, u);
    if !AllForward(mem, st, x, u) {
      BackOpens(mem, p, st, root, x, u);
    } else {
      var y := PathEnd(mem, x, u);
      TransPath(mem, p, st, root, x, u);
      if AllForward(mem, st, y, w) {
        TransPath(mem, p, st, root, y, w);
        EndBelow(st.store, st.cache[y].r, Trans(mem, y, w));
        assert false;
      }
      BackOpens(mem, p, st, root, y, w);
      hide World;
      PathUnder(st.store, st.cache[x].r, Trans(mem, x, u));
      OpenUp(st.store, st.cache[x].r, st.cache[y].r);
    }
  }

  lemma {:induction false} PathJoin(mem: Memory, a: Addr, u: seq<nat>, i: nat)
    requires IsPath(mem, a, u) && i < |Stored(mem, PathEnd(mem, a, u))|
    ensures IsPath(mem, a, u + [i]) && PathEnd(mem, a, u + [i]) == Stored(mem, PathEnd(mem, a, u))[i]
    decreases |u|
  {
    if u == [] {
      assert [] + [i] == [i];
      assert IsPath(mem, Stored(mem, a)[i], []);
    } else {
      assert (u + [i])[1..] == u[1..] + [i];
      PathJoin(mem, Stored(mem, a)[u[0]], u[1..], i);
    }
  }

  /** Where there is a placeholder there is a cycle. */
  lemma OpenCycles(mem: Memory, p: set<Addr>, st: State, root: Addr, x: Addr)
    requires World(mem, p, st, root) && Member(p, st, x) && Open(st.store, st.cache[x].r)
    ensures Cyclic(mem, x)
  {
    var g, k := PlaceholderIn(st.store, st.cache[x].r);
    hide *;
    var u := HolderType(mem, p, st, root, x, g, k);
    var z := PathEnd(mem, x, u);
    var y := Stored(mem, z)[k];
    Closing(mem, p, st, root, z, g, k);
    var w := HolderType(mem, p, st, root, y, g, k);
    SameSpot(mem, p, st, root, z, PathEnd(mem, y, w));
    PathJoin(mem, x, u, k);
    PathJoin(mem, y, w, k);
    CycleAt(mem, x, u + [k], w + [k]);
  }

  lemma CycleAt(mem: Memory, x: Addr, u: seq<nat>, w: seq<nat>)
    requires IsPath(mem, x, u) && IsPath(mem, PathEnd(mem, x, u), w)
    requires w != [] && PathEnd(mem, PathEnd(mem, x, u), w) == PathEnd(mem, x, u)
    ensures Cyclic(mem, x)
  {
  }

  lemma PlaceholderIn(store: seq<Obj>, r: nat) returns (g: nat, k: nat)
    requires Open(store, r)
    ensures Under(store, r, g) && HasKid(store, g, k) && store[Kid(store, g, k)].Backref?
  {
    g :| Under(store, r, g) && Holder(store, g);
    k :| HasKid(store, g, k) && store[Kid(store, g, k)].Backref?;
  }

  /** A placeholder stands for a type it is stored in. */
  lemma Closing(mem: Memory, p: set<Addr>, st: State, root: Addr, z: Addr, g: nat, k: nat)
    requires World(mem, p, st, root) && Member(p, st, z) && k < |Stored(mem, z)|
    requires HasKid(st.store, g, k) && st.store[Kid(st.store, g, k)] == Backref(Stored(mem, z)[k])
    ensures Member(p, st, Stored(mem, z)[k]) && Under(st.store, st.cache[Stored(mem, z)[k]].r, g)
  {
    SlotOf(mem, p, st, root, z, k);
    assert HeldAt(st, {}, g, k);
  }

  // ----- Simple paths -----

  lemma {:induction false} ForwardFalls(mem: Memory, p: set<Addr>, st: State, root: Addr, a: Addr, path: seq<nat>, i: nat)
    requires World(mem, p, st, root) && Member(p, st, a) && IsPath(mem, a, path) && AllForward(mem, st, a, path) && i <= |path|
    ensures var x := Stops(mem, a, path)[i];
            Member(p, st, x) && st.cache[x].r <= st.cache[a].r && (i > 0 ==> st.cache[x].r < st.cache[a].r)
    decreases |path|
  {
    hide World;
    hide ForwardSlot;
    hide Stored;
    if i > 0 {
      var next := PathTail(mem, st, a, path);
      hide AllForward;
      hide IsPath;
      hide Stops;
      ForwardLower(mem, p, st, root, a, path[0]);
      ForwardFalls(mem, p, st, root, next, path[1..], i - 1);
      StopsCons(mem, a, path[0], path[1..]);
    }
  }

  lemma ForwardLower(mem: Memory, p: set<Addr>, st: State, root: Addr, a: Addr, i: nat)
    requires World(mem, p, st, root) && Member(p, st, a) && i < |Stored(mem, a)| && ForwardSlot(mem, st, a, i)
    ensures Member(p, st, Stored(mem, a)[i]) && st.cache[Stored(mem, a)[i]].r < st.cache[a].r
  {
    ForwardKid(mem, p, st, root, a, i);
    SpotOf(mem, p, st, root, a);
    hide World;
  }

  /** Forward paths are simple: they lead to older and older objects. */
  lemma {:induction false} ForwardSimple(mem: Memory, p: set<Addr>, st: State, root: Addr, a: Addr, path: seq<nat>)
    requires World(mem, p, st, root) && Member(p, st, a) && IsPath(mem, a, path) && AllForward(mem, st, a, path)
    ensures SimplePath(mem, a, path)
    decreases |path|
  {
    if path != [] {
      var next := Stored(mem, a)[path[0]];
      ForwardKid(mem, p, st, root, a, path[0]);
      ForwardSimple(mem, p, st, root, next, path[1..]);
      forall j | 0 < j <= |path| ensures Stops(mem, a, path)[j] != a {
        ForwardFalls(mem, p, st, root, a, path, j);
      }
      hide World;
      SimpleCons(mem, a, path);
    }
  }

  lemma SimpleCons(mem: Memory, a: Addr, path: seq<nat>)
    requires IsPath(mem, a, path) && path != [] && SimplePath(mem, Stored(mem, a)[path[0]], path[1..])
    requires forall j | 0 < j <= |path| :: Stops(mem, a, path)[j] != a
    ensures SimplePath(mem, a, path)
  {
    var stops, rest := Stops(mem, a, path), Stops(mem, Stored(mem, a)[path[0]], path[1..]);
    StopsCons(mem, a, path[0], path[1..]);
    assert path == [path[0]] + path[1..];
    hide Stops;
    forall i, j | 0 <= i < j < |stops| ensures stops[i] != stops[j] {
      if i > 0 {
        assert stops[i] == rest[i - 1] && stops[j] == rest[j - 1];
      }
    }
  }

  /** If open objects are stored once, simple paths from the root are forward. */
  lemma SimpleForward(mem: Memory, p: set<Addr>, st: State, root: Addr, path: seq<nat>)
    requires World(mem, p, st, root) && UniqueOpen(st.store, st.cache[root].r) && SimplePath(mem, root, path)
    ensures AllForward(mem, st, root, path)
  {
    assert IsPath(mem, root, path);
    hide SimplePath;
    hide AllForward;
    hide World;
    if !AllForward(mem, st, root, path) {
      var u, i := FirstBack(mem, st, root, path);
      var k: nat := |u| + 1;
      var j := ClosedBefore(mem, p, st, root, u, i);
      NotSimple(mem, root, path, j, k);
    }
  }

  lemma NotSimple(mem: Memory, a: Addr, path: seq<nat>, i: nat, j: nat)
    requires IsPath(mem, a, path) && i < j <= |path| && Stops(mem, a, path)[i] == Stops(mem, a, path)[j]
    ensures !SimplePath(mem, a, path)
  {
  }

  /** The type a placeholder stands for was passed on the only way to the placeholder. */
  lemma ClosedBefore(mem: Memory, p: set<Addr>, st: State, root: Addr, u: seq<nat>, i: nat) returns (j: nat)
    requires World(mem, p, st, root) && UniqueOpen(st.store, st.cache[root].r)
    requires IsPath(mem, root, u) && AllForward(mem, st, root, u)
    requires i < |Stored(mem, PathEnd(mem, root, u))| && !ForwardSlot(mem, st, PathEnd(mem, root, u), i)
    ensures j <= |u| && Stops(mem, root, u)[j] == Stored(mem, PathEnd(mem, root, u))[i]
  {
    var r, x := st.cache[root].r, PathEnd(mem, root, u);
    SpotPath(mem, p, st, root, root, u);
    var h, y := Spot(mem, st, x), Stored(mem, x)[i];
    BackSlot(mem, p, st, root, x, i);
    hide *;
    Closing(mem, p, st, root, x, h, i);
    OwnUnder(mem, p, st, root, y);
    var s := PathTo(st.store, r, st.cache[y].r);
    var t := PathTo(st.store, st.cache[y].r, h);
    JoinPaths(st.store, r, s, t);
    SameWay(st.store, r, s + t, Trans(mem, root, u) + Lead(mem, x));
    var w := Back(mem, p, st, root, root, s);
    WayToOwn(mem, p, st, root, w, s, y);
    PrefixTrans(mem, root, w, u);
    StopsOfPrefix(mem, root, w, u);
    j := |w|;
  }

  lemma SameWay(store: seq<Obj>, r: nat, s: seq<nat>, t: seq<nat>)
    requires UniqueOpen(store, r) && StorePath(store, r, s) && StorePath(store, r, t)
    requires StoreEnd(store, r, s) == StoreEnd(store, r, t) && Open(store, StoreEnd(store, r, s))
    ensures s == t
  {
  }

  lemma BackSlot(mem: Memory, p: set<Addr>, st: State, root: Addr, x: Addr, i: nat)
    requires World(mem, p, st, root) && Member(p, st, x) && i < |Stored(mem, x)| && !ForwardSlot(mem, st, x, i)
    ensures var h := Spot(mem, st, x);
            HasKid(st.store, h, i) && st.store[Kid(st.store, h, i)] == Backref(Stored(mem, x)[i]) && Open(st.store, h)
  {
    ForwardKid(mem, p, st, root, x, i);
    hide World;
    var h := Spot(mem, st, x);
    assert Under(st.store, h, h) && Holder(st.store, h);
  }

  lemma OwnUnder(mem: Memory, p: set<Addr>, st: State, root: Addr, y: Addr)
    requires World(mem, p, st, root) && Member(p, st, y)
    ensures Member(p, st, root) && Under(st.store, st.cache[root].r, st.cache[y].r) && !st.store[st.cache[y].r].Backref?
  {
    TypeOf(mem, p, st, root, y);
  }

  /** The way to a type's own object follows a path to that type. */
  lemma WayToOwn(mem: Memory, p: set<Addr>, st: State, root: Addr, w: seq<nat>, s: seq<nat>, y: Addr)
    requires World(mem, p, st, root) && Member(p, st, y) && IsPath(mem, root, w) && AllForward(mem, st, root, w)
    requires EndsAt(mem, st, root, s, w, st.cache[y].r)
    ensures PathEnd(mem, root, w) == y && Trans(mem, root, w) == s
  {
    TransPath(mem, p, st, root, root, w);
    var end := PathEnd(mem, root, w);
    if st.cache[end].r == st.cache[y].r {
      SameSpot(mem, p, st, root, end, y);
    }
    if Spot(mem, st, end) == st.cache[y].r {
      SpotIsOwn(mem, p, st, root, y, end);
      assert Trans(mem, root, w) + [] == Trans(mem, root, w);
    }
  }

  lemma {:induction false} StopsOfPrefix(mem: Memory, a: Addr, w: seq<nat>, u: seq<nat>)
    requires IsPath(mem, a, w) && IsPath(mem, a, u) && w <= u
    ensures Stops(mem, a, u)[|w|] == PathEnd(mem, a, w)
    decreases |w|
  {
    if w != [] {
      StopsOfPrefix(mem, Stored(mem, a)[w[0]], w[1..], u[1..]);
    }
  }

  // ----- One path in memory, one path among the objects -----

  lemma UniqueSimple(mem: Memory, p: set<Addr>, st: State, root: Addr)
    requires World(mem, p, st, root) && UniqueOpen(st.store, st.cache[root].r)
    ensures OneSimplePath(mem, root)
  {
    forall u, w | SimplePath(mem, root, u) && SimplePath(mem, root, w) && PathEnd(mem, root, u) == PathEnd(mem, root, w)
                  && Cyclic(mem, PathEnd(mem, root, u))
      ensures u == w
    {
      SimpleForward(mem, p, st, root, u);
      SimpleForward(mem, p, st, root, w);
      TransPath(mem, p, st, root, root, u);
      TransPath(mem, p, st, root, root, w);
      CyclicOpens(mem, p, st, root, PathEnd(mem, root, u));
      TransInjective(mem, root, u, w);
    }
  }

  lemma SimpleUnique(mem: Memory, p: set<Addr>, st: State, root: Addr)
    requires World(mem, p, st, root) && OneSimplePath(mem, root)
    ensures UniqueOpen(st.store, st.cache[root].r)
  {
    var r := st.cache[root].r;
    forall s, t | StorePath(st.store, r, s) && StorePath(st.store, r, t)
                  && StoreEnd(st.store, r, s) == StoreEnd(st.store, r, t) && Open(st.store, StoreEnd(st.store, r, s))
      ensures s == t
    {
      OneWay(mem, p, st, root, s, t);
    }
  }

  lemma OneWay(mem: Memory, p: set<Addr>, st: State, root: Addr, s: seq<nat>, t: seq<nat>)
    requires World(mem, p, st, root) && OneSimplePath(mem, root)
    requires StorePath(st.store, st.cache[root].r, s) && StorePath(st.store, st.cache[root].r, t)
    requires StoreEnd(st.store, st.cache[root].r, s) == StoreEnd(st.store, st.cache[root].r, t)
    requires Open(st.store, StoreEnd(st.store, st.cache[root].r, s))
    ensures s == t
  {
    var r := st.cache[root].r;
    var h := StoreEnd(st.store, r, s);
    RootMember(mem, p, st, root);
    hide *;
    OpenIsNoPlaceholder(st.store, h);
    var u := Back(mem, p, st, root, root, s);
    var w := Back(mem, p, st, root, root, t);
    SameEnd(mem, p, st, root, u, w, s, t, h);
    EndsUnder(mem, p, st, root, u, s, h);
    var x := PathEnd(mem, root, u);
    OpenUp(st.store, st.cache[x].r, h);
    OpenCycles(mem, p, st, root, x);
    ForwardSimple(mem, p, st, root, root, u);
    ForwardSimple(mem, p, st, root, root, w);
    SamePath(mem, root, u, w);
  }

  lemma SamePath(mem: Memory, root: Addr, u: seq<nat>, w: seq<nat>)
    requires OneSimplePath(mem, root) && SimplePath(mem, root, u) && SimplePath(mem, root, w)
    requires PathEnd(mem, root, u) == PathEnd(mem, root, w) && Cyclic(mem, PathEnd(mem, root, u))
    ensures u == w
  {
  }

  lemma RootMember(mem: Memory, p: set<Addr>, st: State, root: Addr)
    requires World(mem, p, st, root)
    ensures Member(p, st, root)
  {
  }

  /** Two ways to one object come from paths to one type, and from one path only if they are the same. */
  lemma SameEnd(mem: Memory, p: set<Addr>, st: State, root: Addr, u: seq<nat>, w: seq<nat>, s: seq<nat>, t: seq<nat>, h: nat)
    requires World(mem, p, st, root)
    requires IsPath(mem, root, u) && AllForward(mem, st, root, u) && EndsAt(mem, st, root, s, u, h)
    requires IsPath(mem, root, w) && AllForward(mem, st, root, w) && EndsAt(mem, st, root, t, w, h)
    ensures PathEnd(mem, root, u) == PathEnd(mem, root, w) && (u == w ==> s == t)
  {
    TransPath(mem, p, st, root, root, u);
    TransPath(mem, p, st, root, root, w);
    var x, y := PathEnd(mem, root, u), PathEnd(mem, root, w);
    if st.cache[x].r == Spot(mem, st, y) {
      SpotIsOwn(mem, p, st, root, x, y);
    } else if st.cache[y].r == Spot(mem, st, x) {
      SpotIsOwn(mem, p, st, root, y, x);
    } else {
      SameSpot(mem, p, st, root, x, y);
    }
    hide World;
    assert Trans(mem, root, u) + [] == Trans(mem, root, u) && Trans(mem, root, w) + [] == Trans(mem, root, w);
  }

  lemma EndsUnder(mem: Memory, p: set<Addr>, st: State, root: Addr, u: seq<nat>, s: seq<nat>, h: nat)
    requires World(mem, p, st, root) && IsPath(mem, root, u) && AllForward(mem, st, root, u) && EndsAt(mem, st, root, s, u, h)
    ensures Member(p, st, PathEnd(mem, root, u)) && Under(st.store, st.cache[PathEnd(mem, root, u)].r, h)
  {
    TransPath(mem, p, st, root, root, u);
    var x := PathEnd(mem, root, u);
    SpotPath(mem, p, st, root, x, []);
    TypeOf(mem, p, st, root, x);
    hide World;
    assert Under(st.store, st.cache[x].r, st.cache[x].r);
  }

  // ----- The whole call -----

  lemma DecodedWorld(mem: Memory, p: set<Addr>, root: Addr)
    requires Plain(mem, p) && root in p
    ensures var (v, st) := Decode(mem, root, EMPTY); World(mem, p, st, root) && v == st.cache[root]
  {
    EmptyInv(mem, p);
    DecodeInv(mem, p, root, EMPTY, {});
    DecodePlain(mem, p, root, EMPTY, {});
    DecodedFresh(mem, root);
    RootCached(mem, root);
    GoodNotFailing(mem, p, root);
  }

  lemma RootCached(mem: Memory, root: Addr)
    requires root in mem
    ensures var (v, st) := Decode(mem, root, EMPTY); root in st.cache && st.cache[root] == v
  {
  }

  /**
    Where no function or interface mentions types, decoding with placeholder
    removal ends if and only if one simple path at most leads from the type to
    each type with a cycle behind it.
   */
  lemma PlainEndsExactly(mem: Memory, p: set<Addr>, root: Addr)
    requires Plain(mem, p) && root in p
    ensures var (v, st) := Decode(mem, root, EMPTY); Ends(st.cache, st.store, v) <==> OneSimplePath(mem, root)
  {
    PlainKnotTying(mem, p, root);
    DecodedWorld(mem, p, root);
    var (v, st) := Decode(mem, root, EMPTY);
    OwnUnder(mem, p, st, root, root);
    hide *;
    OnePathIsUnique(st.store, v.r);
    if OneSimplePath(mem, root) {
      SimpleUnique(mem, p, st, root);
    }
    if UniqueOpen(st.store, v.r) {
      UniqueSimple(mem, p, st, root);
    }
  }

  /**
    On such a type with one simple path to each cycle the call ends, within one
    level of recursion for every decoded object, and the cyclic result unfolds to
    every depth exactly as memory does.
   */
  lemma PlainDecodesMemory(mem: Memory, p: set<Addr>, root: Addr, n: nat)
    requires Plain(mem, p) && root in p && OneSimplePath(mem, root)
    ensures var (v, st) := Decode(mem, root, EMPTY);
            var out := Remove(st.cache, st.store, v, |st.store|);
            && out.Done? && out.v == v && PlainTree(out.store, v, n) == MemTree(mem, root, n)
            && !HasPlaceholder(PlainTree(out.store, v, n))
  {
    PlainIsGood(mem, p);
    hide *;
    PlainEndsExactly(mem, p, root);
    KnotTying(mem, p, root);
    var (v, st) := Decode(mem, root, EMPTY);
    PlainKnotTiedIsMemory(mem, p, root, |st.store|, n);
  }

  lemma PlainIsGood(mem: Memory, p: set<Addr>)
    requires Plain(mem, p)
    ensures Good(mem, p)
  {
  }
}
