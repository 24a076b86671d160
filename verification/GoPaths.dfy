/**
  Paths inside the object graph: storing open objects in one place means that
  only one path leads to each of them.
 */
module GoPaths {
  import opened GoDecode
  import opened GoKnot

  /** From `r` on, always into the component with the next number. */
  predicate StorePath(store: seq<Obj>, r: nat, path: seq<nat>)
    decreases |path|
  {
    r < |store| && (path == [] || (HasKid(store, r, path[0]) && StorePath(store, Kid(store, r, path[0]), path[1..])))
  }

  function StoreEnd(store: seq<Obj>, r: nat, path: seq<nat>): (end: nat)
    requires StorePath(store, r, path)
    ensures end < |store|
    decreases |path|
  {
    if path == [] then r else StoreEnd(store, Kid(store, r, path[0]), path[1..])
  }

  /** Only one path leads from `r` to each object that contains a placeholder. */
  ghost predicate UniqueOpen(store: seq<Obj>, r: nat) {
    forall s, t | StorePath(store, r, s) && StorePath(store, r, t)
                  && StoreEnd(store, r, s) == StoreEnd(store, r, t) && Open(store, StoreEnd(store, r, s)) :: s == t
  }

  lemma {:induction false} EndBelow(store: seq<Obj>, r: nat, path: seq<nat>)
    requires StorePath(store, r, path)
    ensures StoreEnd(store, r, path) <= r && (path != [] ==> StoreEnd(store, r, path) < r)
    decreases |path|
  {
    if path != [] {
      EndBelow(store, Kid(store, r, path[0]), path[1..]);
    }
  }

  lemma {:induction false} JoinPaths(store: seq<Obj>, r: nat, s: seq<nat>, t: seq<nat>)
    requires StorePath(store, r, s) && StorePath(store, StoreEnd(store, r, s), t)
    ensures StorePath(store, r, s + t) && StoreEnd(store, r, s + t) == StoreEnd(store, StoreEnd(store, r, s), t)
    decreases |s|
  {
    if s == [] {
      assert s + t == t;
    } else {
      JoinPaths(store, Kid(store, r, s[0]), s[1..], t);
      assert (s + t)[1..] == s[1..] + t;
    }
  }

  lemma OneStep(store: seq<Obj>, r: nat, i: nat)
    requires HasKid(store, r, i)
    ensures StorePath(store, r, [i]) && StoreEnd(store, r, [i]) == Kid(store, r, i)
  {
    var q := Kid(store, r, i);
    assert StorePath(store, q, []) && StoreEnd(store, q, []) == q;
    assert [i][1..] == [];
  }

  lemma FirstStep(store: seq<Obj>, r: nat, i: nat, s: seq<nat>)
    requires HasKid(store, r, i) && StorePath(store, Kid(store, r, i), s)
    ensures StorePath(store, r, [i] + s) && StoreEnd(store, r, [i] + s) == StoreEnd(store, Kid(store, r, i), s)
  {
    assert ([i] + s)[1..] == s;
  }

  /** A placeholder is an end. */
  lemma NoWayOn(store: seq<Obj>, r: nat, path: seq<nat>)
    requires StorePath(store, r, path) && !store[StoreEnd(store, r, path)].Backref?
    ensures !store[r].Backref?
  {
  }

  lemma OpenIsNoPlaceholder(store: seq<Obj>, x: nat)
    requires x < |store| && Open(store, x)
    ensures !store[x].Backref?
  {
  }

  /** What is stored inside `r` is reached by a path. */
  lemma {:induction false} PathTo(store: seq<Obj>, r: nat, x: nat) returns (path: seq<nat>)
    requires Under(store, r, x)
    ensures StorePath(store, r, path) && StoreEnd(store, r, path) == x
    decreases r
  {
    if x == r {
      path := [];
    } else {
      var i: nat :| HasKid(store, r, i) && Under(store, Kid(store, r, i), x);
      path := PathTo(store, Kid(store, r, i), x);
      FirstStep(store, r, i, path);
      path := [i] + path;
    }
  }

  lemma {:induction false} PathUnder(store: seq<Obj>, r: nat, path: seq<nat>)
    requires StorePath(store, r, path)
    ensures Under(store, r, StoreEnd(store, r, path))
    decreases |path|
  {
    if path != [] {
      PathUnder(store, Kid(store, r, path[0]), path[1..]);
    }
  }

  lemma OpenUp(store: seq<Obj>, r: nat, x: nat)
    requires Under(store, r, x) && Open(store, x)
    ensures Open(store, r)
  {
    var h :| Under(store, x, h) && Holder(store, h);
    UnderTransitive(store, r, x, h);
  }

  lemma {:induction false} OnePathUnique(store: seq<Obj>, r: nat)
    requires r < |store| && OnePath(store, r)
    ensures UniqueOpen(store, r)
    decreases r, 0
  {
    forall s, t | StorePath(store, r, s) && StorePath(store, r, t)
                  && StoreEnd(store, r, s) == StoreEnd(store, r, t) && Open(store, StoreEnd(store, r, s))
      ensures s == t
    {
      OnePathSame(store, r, s, t);
    }
  }

  lemma SameKid(store: seq<Obj>, r: nat, i: nat, j: nat, x: nat)
    requires OnePath(store, r) && HasKid(store, r, i) && HasKid(store, r, j)
    requires Under(store, Kid(store, r, i), x) && Under(store, Kid(store, r, j), x) && Open(store, x)
    ensures i == j
  {
    assert OpenUnder(store, Kid(store, r, i), x) && OpenUnder(store, Kid(store, r, j), x);
    assert i < j ==> Disjoint(store, r, i, j);
    assert j < i ==> Disjoint(store, r, j, i);
  }

  lemma {:induction false} OnePathSame(store: seq<Obj>, r: nat, s: seq<nat>, t: seq<nat>)
    requires OnePath(store, r) && StorePath(store, r, s) && StorePath(store, r, t)
    requires StoreEnd(store, r, s) == StoreEnd(store, r, t) && Open(store, StoreEnd(store, r, s))
    ensures s == t
    decreases |s|
  {
    EndBelow(store, r, s);
    EndBelow(store, r, t);
    if s != [] && t != [] {
      var i, j, x := s[0], t[0], StoreEnd(store, r, s);
      hide Open;
      PathUnder(store, Kid(store, r, i), s[1..]);
      PathUnder(store, Kid(store, r, j), t[1..]);
      SameKid(store, r, i, j, x);
      assert OnePath(store, Kid(store, r, i));
      OnePathSame(store, Kid(store, r, i), s[1..], t[1..]);
      assert s == [i] + s[1..] && t == [j] + t[1..];
    }
  }

  lemma {:induction false} UniqueOnePath(store: seq<Obj>, r: nat)
    requires r < |store| && UniqueOpen(store, r)
    ensures OnePath(store, r)
    decreases r
  {
    forall i | HasKid(store, r, i) ensures OnePath(store, Kid(store, r, i)) {
      UniqueKid(store, r, i);
      UniqueOnePath(store, Kid(store, r, i));
    }
    forall i, j | HasKid(store, r, i) && HasKid(store, r, j) && i < j ensures Disjoint(store, r, i, j) {
      forall x | OpenUnder(store, Kid(store, r, i), x) ensures !OpenUnder(store, Kid(store, r, j), x) {
        if OpenUnder(store, Kid(store, r, j), x) {
          TwoWays(store, r, i, j, x);
        }
      }
    }
  }

  lemma UniqueKid(store: seq<Obj>, r: nat, i: nat)
    requires UniqueOpen(store, r) && HasKid(store, r, i)
    ensures UniqueOpen(store, Kid(store, r, i))
  {
    var q := Kid(store, r, i);
    hide Open;
    forall s, t | StorePath(store, q, s) && StorePath(store, q, t)
                  && StoreEnd(store, q, s) == StoreEnd(store, q, t) && Open(store, StoreEnd(store, q, s))
      ensures s == t
    {
      FirstStep(store, r, i, s);
      FirstStep(store, r, i, t);
      assert [i] + s == [i] + t;
      assert s == ([i] + s)[1..] && t == ([i] + t)[1..];
    }
  }

  lemma TwoWays(store: seq<Obj>, r: nat, i: nat, j: nat, x: nat)
    requires HasKid(store, r, i) && HasKid(store, r, j) && i != j
    requires Under(store, Kid(store, r, i), x) && Under(store, Kid(store, r, j), x) && Open(store, x)
    ensures !UniqueOpen(store, r)
  {
    var s := PathTo(store, Kid(store, r, i), x);
    var t := PathTo(store, Kid(store, r, j), x);
    FirstStep(store, r, i, s);
    FirstStep(store, r, j, t);
    assert ([i] + s)[0] != ([j] + t)[0];
  }

  lemma OnePathIsUnique(store: seq<Obj>, r: nat)
    requires r < |store|
    ensures OnePath(store, r) <==> UniqueOpen(store, r)
  {
    hide UniqueOpen;
    hide OnePath;
    if OnePath(store, r) {
      OnePathUnique(store, r);
    }
    if UniqueOpen(store, r) {
      UniqueOnePath(store, r);
    }
  }
}
