/**
  The order in which dependencies are yielded, and when the depth error is raised
  (nix/bundle/bundle.py:113-132).
 */
module BundleOrder {
  import opened Bundle

  // ----- The order, from the graph alone -----

  /** Every dependency of `x` is listed. */
  ghost predicate Finished(g: Graph, x: Path, s: seq<Path>) {
    forall i | 0 <= i < |g.deps(x)| :: g.norm(g.deps(x)[i]) in s
  }

  /** `x` is the first dependency of `u` that is not listed. */
  ghost predicate FirstMissing(g: Graph, u: Path, x: Path, s: seq<Path>) {
    x !in s && exists j | 0 <= j < |g.deps(u)| ::
      g.norm(g.deps(u)[j]) == x && forall i | 0 <= i < j :: g.norm(g.deps(u)[i]) in s
  }

  /** `x` comes next, on account of the node at place `p`: the latest one with a dependency that is not listed. */
  ghost predicate Next(g: Graph, s: seq<Path>, p: nat, x: Path) {
    && p < |s| && FirstMissing(g, s[p], x, s)
    && forall q | p < q < |s| :: Finished(g, s[q], s)
  }

  /** A depth-first listing from `root`, complete or not. */
  ghost predicate Listing(g: Graph, root: Path, s: seq<Path>) {
    && s != [] && s[0] == root
    && forall k | 0 < k < |s| :: Follows(g, s, k)
  }

  ghost predicate Follows(g: Graph, s: seq<Path>, k: nat)
    requires k < |s|
  {
    exists p :: Next(g, s[..k], p, s[k])
  }

  /** The latest of the first `n` places whose node has a dependency that is not listed, or -1. */
  ghost function Latest(g: Graph, s: seq<Path>, n: nat): (p: int)
    requires n <= |s|
    ensures p < n
  {
    if n == 0 then -1 else if !Finished(g, s[n - 1], s) then n - 1 else Latest(g, s, n - 1)
  }

  /** How deep the node at a place hangs: one below the node on whose account it came. */
  ghost function Depth(g: Graph, s: seq<Path>, k: nat): nat
    requires k < |s|
  {
    var p := Latest(g, s[..k], k);
    if p < 0 then 0 else 1 + Depth(g, s, p)
  }

  // ----- Lemmas on listings -----

  lemma {:induction false} NextIsLatest(g: Graph, s: seq<Path>, p: nat, x: Path, n: nat)
    requires Next(g, s, p, x) && p < n <= |s|
    ensures Latest(g, s, n) == p
  {
    if n - 1 > p {
      NextIsLatest(g, s, p, x, n - 1);
    }
  }

  lemma NextOnce(g: Graph, s: seq<Path>, p: nat, x: Path, q: nat, y: Path)
    requires Next(g, s, p, x) && Next(g, s, q, y)
    ensures p == q && x == y
  {
    NextIsLatest(g, s, p, x, |s|);
    NextIsLatest(g, s, q, y, |s|);
  }

  lemma {:induction false} DepthKept(g: Graph, s: seq<Path>, t: seq<Path>, k: nat)
    requires k < |s|
    ensures Depth(g, s + t, k) == Depth(g, s, k)
  {
    hide Latest;
    assert (s + t)[..k] == s[..k];
    var p := Latest(g, s[..k], k);
    if p >= 0 {
      DepthKept(g, s, t, p);
    }
  }

  lemma DepthNext(g: Graph, s: seq<Path>, p: nat, x: Path)
    requires Next(g, s, p, x)
    ensures Depth(g, s + [x], |s|) == 1 + Depth(g, s, p)
  {
    NextIsLatest(g, s, p, x, |s|);
    DepthKept(g, s, [x], p);
    hide Next;
    hide Latest;
    assert (s + [x])[..|s|] == s;
  }

  lemma FinishedMore(g: Graph, x: Path, s: seq<Path>, t: seq<Path>)
    ensures Finished(g, x, s) ==> Finished(g, x, s + t)
  {
  }

  lemma FollowsKept(g: Graph, s: seq<Path>, t: seq<Path>, k: nat)
    requires k < |s|
    ensures Follows(g, s + t, k) <==> Follows(g, s, k)
  {
    hide Next;
    assert (s + t)[..k] == s[..k] && (s + t)[k] == s[k];
  }

  // ----- The generator follows the order -----

  /** What holds of a node yielded: it follows in order, and if the call ended, it is finished. */
  ghost predicate Placed(g: Graph, all: seq<Path>, k: nat, ok: bool)
    requires k < |all|
  {
    && Follows(g, all, k) && Depth(g, all, k) <= MAX_DEPTH
    && (ok ==> Finished(g, all[k], all) && (Depth(g, all, k) == MAX_DEPTH ==> g.deps(all[k]) == []))
  }

  /** The nodes a call yields behind `s`. */
  ghost predicate Grown(g: Graph, s: seq<Path>, r: Run) {
    && (forall x :: x in r.visited <==> x in s + r.out)
    && (forall k | |s| <= k < |s + r.out| :: Placed(g, s + r.out, k, r.ok))
    && (!r.ok ==> TooDeep(g, s + r.out))
  }

  /** Some node listed at the last depth allowed has a dependency. */
  ghost predicate TooDeep(g: Graph, s: seq<Path>) {
    exists k :: 0 <= k < |s| && Depth(g, s, k) == MAX_DEPTH && g.deps(s[k]) != []
  }

  /** The state in which dependency `j` of the node at place `p` is looked at. */
  ghost predicate Looking(g: Graph, s: seq<Path>, p: nat, j: nat, depth: nat, visited: set<Path>) {
    && p < |s| && j <= |g.deps(s[p])|
    && (forall x :: x in visited <==> x in s)
    && Depth(g, s, p) == depth
    && (forall i | 0 <= i < j :: g.norm(g.deps(s[p])[i]) in s)
    && (forall q | p < q < |s| :: Finished(g, s[q], s))
  }

  /** A node yielded, then its dependencies. */
  lemma GrownFirst(g: Graph, s: seq<Path>, p: nat, node: Path, all: Run)
    requires Next(g, s, p, node) && Grown(g, s + [node], all)
    requires Depth(g, s, p) < MAX_DEPTH
    requires all.ok ==> Finished(g, node, s + [node] + all.out) && (Depth(g, s, p) + 1 >= MAX_DEPTH ==> g.deps(node) == [])
    ensures Grown(g, s, all.(out := [node] + all.out))
  {
    var whole := s + [node] + all.out;
    assert s + ([node] + all.out) == whole;
    FirstHangs(g, s, p, node, all.out);
    assert whole[|s|] == node;
    assert Placed(g, whole, |s|, all.ok);
    hide Next;
    hide Placed;
    hide TooDeep;
    hide Depth;
  }

  lemma FirstHangs(g: Graph, s: seq<Path>, p: nat, node: Path, out: seq<Path>)
    requires Next(g, s, p, node)
    ensures Follows(g, s + [node] + out, |s|)
    ensures Depth(g, s + [node] + out, |s|) == 1 + Depth(g, s, p)
  {
    var s1 := s + [node];
    assert s1[..|s|] == s && s1[|s|] == node;
    assert Follows(g, s1, |s|);
    FollowsKept(g, s1, out, |s|);
    DepthKept(g, s1, out, |s|);
    DepthNext(g, s, p, node);
    hide *;
  }

  lemma GrownThen(g: Graph, s: seq<Path>, first: Run, rest: Run)
    requires Grown(g, s, first) && first.ok && Grown(g, s + first.out, rest)
    ensures Grown(g, s, Run(rest.visited, first.out + rest.out, rest.ok))
  {
    var mid := s + first.out;
    var all := mid + rest.out;
    assert s + (first.out + rest.out) == all;
    forall k | |s| <= k < |mid| ensures Placed(g, all, k, rest.ok) {
      assert Placed(g, mid, k, true) && all[k] == mid[k];
      FollowsKept(g, mid, rest.out, k);
      DepthKept(g, mid, rest.out, k);
      FinishedMore(g, mid[k], mid, rest.out);
    }
    hide Placed;
    hide TooDeep;
  }

  /** After a call that ended, the loop looks at the next dependency. */
  lemma LookingOn(g: Graph, s: seq<Path>, p: nat, j: nat, depth: nat, visited: set<Path>, r: Run)
    requires Looking(g, s, p, j, depth, visited) && j < |g.deps(s[p])|
    requires Grown(g, s, r) && r.ok && g.norm(g.deps(s[p])[j]) in s + r.out
    ensures Looking(g, s + r.out, p, j + 1, depth, r.visited)
  {
    var all := s + r.out;
    DepthKept(g, s, r.out, p);
    forall q | p < q < |all| ensures Finished(g, all[q], all) {
      FinishedMore(g, all[q], s, r.out);
      assert q >= |s| ==> Placed(g, all, q, true);
    }
    hide Follows;
    hide Finished;
    hide Depth;
    assert forall i | 0 <= i < |s| :: s[i] in all;
  }

  lemma LookingInto(g: Graph, s: seq<Path>, p: nat, j: nat, depth: nat, visited: set<Path>)
    requires Looking(g, s, p, j, depth, visited) && j < |g.deps(s[p])| && g.norm(g.deps(s[p])[j]) !in visited
    ensures var node := g.norm(g.deps(s[p])[j]);
            && Next(g, s, p, node)
            && Looking(g, s + [node], |s|, 0, depth + 1, visited + {node})
  {
    var node := g.norm(g.deps(s[p])[j]);
    assert Next(g, s, p, node);
    DepthNext(g, s, p, node);
  }

  /** A call that has nothing to do, because the node is listed. */
  lemma GrownNot(g: Graph, s: seq<Path>, visited: set<Path>)
    requires forall x :: x in visited <==> x in s
    ensures Grown(g, s, Run(visited, [], true))
  {
    assert s + [] == s;
  }

  lemma VisitDeep(g: Graph, s: seq<Path>, p: nat, j: nat, visited: set<Path>)
    requires Looking(g, s, p, j, MAX_DEPTH, visited) && j < |g.deps(s[p])|
    ensures Grown(g, s, Visit(g, g.deps(s[p])[j], MAX_DEPTH + 1, visited))
    ensures !Visit(g, g.deps(s[p])[j], MAX_DEPTH + 1, visited).ok
  {
    assert s + [] == s;
    assert TooDeep(g, s);
  }

  lemma VisitIs(g: Graph, path: Path, depth: nat, visited: set<Path>)
    requires depth < MAX_DEPTH
    ensures var node := g.norm(path);
            Visit(g, path, depth + 1, visited) ==
            if node in visited then Run(visited, [], true)
            else
              var all := VisitAll(g, g.deps(node), depth + 1, visited + {node});
              all.(out := [node] + all.out)
  {
    hide VisitAll;
  }

  lemma AllIs(g: Graph, paths: seq<Path>, depth: nat, visited: set<Path>)
    requires depth <= MAX_DEPTH && paths != []
    ensures VisitAll(g, paths, depth, visited) ==
            var r := Visit(g, paths[0], depth + 1, visited);
            if !r.ok then r
            else
              var rest := VisitAll(g, paths[1..], depth, r.visited);
              Run(rest.visited, r.out + rest.out, rest.ok)
  {
    hide Visit;
  }

  lemma {:induction false} VisitGrows(g: Graph, s: seq<Path>, p: nat, j: nat, depth: nat, visited: set<Path>)
    requires depth <= MAX_DEPTH && Looking(g, s, p, j, depth, visited) && j < |g.deps(s[p])|
    ensures var r := Visit(g, g.deps(s[p])[j], depth + 1, visited);
            && Grown(g, s, r)
            && (r.ok ==> depth < MAX_DEPTH && Looking(g, s + r.out, p, j + 1, depth, r.visited))
    decreases MAX_DEPTH - depth, |g.deps(s[p])| - j, 0
  {
    var r := Visit(g, g.deps(s[p])[j], depth + 1, visited);
    if depth == MAX_DEPTH {
      VisitDeep(g, s, p, j, visited);
    } else {
      var node := g.norm(g.deps(s[p])[j]);
      VisitIs(g, g.deps(s[p])[j], depth, visited);
      VisitedSame(g, s, p, j, depth, visited);
      hide *;
      if node in visited {
        GrownNot(g, s, visited);
      } else {
        LookingInto(g, s, p, j, depth, visited);
        AllGrow(g, s + [node], |s|, 0, depth + 1, visited + {node});
        var all := VisitAll(g, g.deps(node), depth + 1, visited + {node});
        assert g.deps(node)[0..] == g.deps(node);
        GrownFirst(g, s, p, node, all);
        assert node in s + r.out;
      }
      if r.ok {
        LookingOn(g, s, p, j, depth, visited, r);
      }
    }
  }

  lemma VisitedSame(g: Graph, s: seq<Path>, p: nat, j: nat, depth: nat, visited: set<Path>)
    requires Looking(g, s, p, j, depth, visited)
    ensures p < |s| && j <= |g.deps(s[p])| && Depth(g, s, p) == depth
    ensures forall x :: x in visited <==> x in s
  {
    hide Depth;
    hide Finished;
  }

  lemma {:induction false} AllGrow(g: Graph, s: seq<Path>, p: nat, j: nat, depth: nat, visited: set<Path>)
    requires depth <= MAX_DEPTH && Looking(g, s, p, j, depth, visited)
    ensures var r := VisitAll(g, g.deps(s[p])[j..], depth, visited);
            && Grown(g, s, r)
            && (r.ok ==> Finished(g, s[p], s + r.out) && (depth >= MAX_DEPTH ==> j == |g.deps(s[p])|))
    decreases MAX_DEPTH - depth, |g.deps(s[p])| - j, 1
  {
    hide *;
    VisitedSame(g, s, p, j, depth, visited);
    var deps := g.deps(s[p]);
    if j == |deps| {
      GrownNot(g, s, visited);
      AllDone(g, s, p, depth, visited);
    } else {
      assert deps[j..][0] == deps[j] && deps[j..][1..] == deps[j + 1..];
      AllIs(g, deps[j..], depth, visited);
      VisitGrows(g, s, p, j, depth, visited);
      var first := Visit(g, deps[j], depth + 1, visited);
      if first.ok {
        AllGrow(g, s + first.out, p, j + 1, depth, first.visited);
        var rest := VisitAll(g, deps[j + 1..], depth, first.visited);
        GrownThen(g, s, first, rest);
        assert s + (first.out + rest.out) == s + first.out + rest.out;
      }
    }
  }

  lemma AllDone(g: Graph, s: seq<Path>, p: nat, depth: nat, visited: set<Path>)
    requires depth <= MAX_DEPTH && p < |s| && Looking(g, s, p, |g.deps(s[p])|, depth, visited)
    ensures VisitAll(g, g.deps(s[p])[|g.deps(s[p])|..], depth, visited) == Run(visited, [], true)
    ensures Finished(g, s[p], s + [])
  {
    assert s + [] == s;
    hide Depth;
  }

  // ----- The generator from the root -----

  lemma RootIs(g: Graph, root: Path)
    ensures Visit(g, root, 0, {}) == VisitAll(g, g.deps(g.norm(root)), 0, {g.norm(root)})
  {
    hide VisitAll;
    var all := VisitAll(g, g.deps(g.norm(root)), 0, {} + {g.norm(root)});
    assert {} + {g.norm(root)} == {g.norm(root)};
    assert [] + all.out == all.out;
  }

  lemma RootLooking(g: Graph, x: Path)
    ensures Looking(g, [x], 0, 0, 0, {x})
  {
  }

  /** What is yielded, behind the root. */
  function Listed(g: Graph, root: Path): seq<Path> {
    [g.norm(root)] + Visit(g, root, 0, {}).out
  }

  lemma ListedGrows(g: Graph, root: Path)
    ensures var r := Visit(g, root, 0, {});
            && Grown(g, [g.norm(root)], r)
            && (r.ok ==> Finished(g, g.norm(root), Listed(g, root)))
  {
    RootLooking(g, g.norm(root));
    RootIs(g, root);
    AllGrow(g, [g.norm(root)], 0, 0, 0, {g.norm(root)});
    assert g.deps(g.norm(root))[0..] == g.deps(g.norm(root));
    hide Visit;
    hide VisitAll;
    hide Grown;
  }

  lemma ListedPlaced(g: Graph, root: Path)
    ensures var s := Listed(g, root);
            var ok := Visit(g, root, 0, {}).ok;
            && (forall k | 0 < k < |s| :: Follows(g, s, k))
            && (ok ==> forall k | 0 <= k < |s| :: Finished(g, s[k], s) && (Depth(g, s, k) == MAX_DEPTH ==> g.deps(s[k]) == []))
            && (!ok ==> TooDeep(g, s))
  {
    ListedGrows(g, root);
    var s := Listed(g, root);
    RootDepth(g, s);
    hide Visit;
    hide Follows;
    hide Finished;
    hide Depth;
    hide TooDeep;
    var ok := Visit(g, root, 0, {}).ok;
    forall k | 0 < k < |s|
      ensures Follows(g, s, k) && (ok ==> Finished(g, s[k], s) && (Depth(g, s, k) == MAX_DEPTH ==> g.deps(s[k]) == []))
    {
      assert Placed(g, s, k, ok);
    }
  }

  lemma RootDepth(g: Graph, s: seq<Path>)
    requires s != []
    ensures Depth(g, s, 0) == 0
  {
  }

  /** Two listings from the same root agree as far as both go. */
  lemma {:induction false} ListingOnce(g: Graph, root: Path, s: seq<Path>, t: seq<Path>, n: nat)
    requires Listing(g, root, s) && Listing(g, root, t) && n <= |s| && n <= |t|
    ensures s[..n] == t[..n]
  {
    if n > 1 {
      ListingOnce(g, root, s, t, n - 1);
      assert Follows(g, s, n - 1) && Follows(g, t, n - 1);
      var p :| Next(g, s[..n - 1], p, s[n - 1]);
      var q :| Next(g, t[..n - 1], q, t[n - 1]);
      NextOnce(g, s[..n - 1], p, s[n - 1], q, t[n - 1]);
      hide *;
      assert s[..n] == s[..n - 1] + [s[n - 1]] && t[..n] == t[..n - 1] + [t[n - 1]];
    }
  }

  /** A listing in which everything is finished cannot go on. */
  lemma CompleteIsLongest(g: Graph, root: Path, s: seq<Path>, t: seq<Path>)
    requires Listing(g, root, s) && Listing(g, root, t)
    requires forall k | 0 <= k < |s| :: Finished(g, s[k], s)
    ensures t <= s
  {
    if |t| > |s| {
      ListingOnce(g, root, s, t, |s|);
      assert s[..|s|] == s;
      NothingFollows(g, s, t);
      assert false;
    } else {
      ListingOnce(g, root, s, t, |t|);
    }
  }

  lemma NothingFollows(g: Graph, s: seq<Path>, t: seq<Path>)
    requires |s| < |t| && t[..|s|] == s
    requires forall k | 0 <= k < |s| :: Finished(g, s[k], s)
    ensures !Follows(g, t, |s|)
  {
  }

  /**
    The nodes yielded, behind the root, are the depth-first listing of the graph:
    each comes as the first missing dependency of the latest node that misses one.
    Without the depth error the listing is complete and there is no longer one.
   */
  lemma YieldsInOrder(g: Graph, root: Path)
    ensures Listing(g, g.norm(root), Listed(g, root))
    ensures Visit(g, root, 0, {}).ok ==> forall t | Listing(g, g.norm(root), t) :: t <= Listed(g, root)
  {
    ListedPlaced(g, root);
    var s := Listed(g, root);
    hide Visit;
    hide Follows;
    hide Finished;
    hide Depth;
    hide TooDeep;
    assert s[0] == g.norm(root);
    if Visit(g, root, 0, {}).ok {
      forall t | Listing(g, g.norm(root), t) ensures t <= s {
        CompleteIsLongest(g, g.norm(root), s, t);
      }
    }
  }

  /**
    The depth error is raised if and only if some depth-first listing puts a node
    that has a dependency twenty levels below the root.
   */
  lemma DepthErrorExactly(g: Graph, root: Path)
    ensures !Visit(g, root, 0, {}).ok <==>
            exists t, k :: Listing(g, g.norm(root), t) && 0 <= k < |t| && Depth(g, t, k) == 20 && g.deps(t[k]) != []
  {
    ListedPlaced(g, root);
    YieldsInOrder(g, root);
    var s := Listed(g, root);
    hide Visit;
    hide Follows;
    hide Finished;
    hide Listing;
    hide Depth;
    if Visit(g, root, 0, {}).ok {
      forall t, k | Listing(g, g.norm(root), t) && 0 <= k < |t| && Depth(g, t, k) == 20 ensures g.deps(t[k]) == [] {
        assert t <= s;
        assert s == t + s[|t|..] && s[k] == t[k];
        DepthKept(g, t, s[|t|..], k);
      }
    } else {
      assert TooDeep(g, s);
    }
  }
}
