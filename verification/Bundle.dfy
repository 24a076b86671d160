/**
  The dependency closure of a binary: depth-first with one visited set and a
  depth limit (nix/bundle/bundle.py:113-132).
 */
module Bundle {
  type Path = string

  /** os.path.normpath and iter_deps, given. */
  datatype Graph = Graph(norm: Path -> Path, deps: Path -> seq<Path>)

  const MAX_DEPTH := 20

  /** The visited set, what was yielded, and whether the run ended without the depth error. */
  datatype Run = Run(visited: set<Path>, out: seq<Path>, ok: bool)

  function Visit(g: Graph, path: Path, depth: nat, visited: set<Path>): Run
    requires depth <= MAX_DEPTH + 1
    decreases MAX_DEPTH + 1 - depth, 1, 0
  {
    if depth > MAX_DEPTH then Run(visited, [], false)
    else
      var node := g.norm(path);
      if node in visited then Run(visited, [], true)
      else
        var own := if depth == 0 then [] else [node];
        var r := VisitAll(g, g.deps(node), depth, visited + {node});
        r.(out := own + r.out)
  }

  function VisitAll(g: Graph, paths: seq<Path>, depth: nat, visited: set<Path>): Run
    requires depth <= MAX_DEPTH
    decreases MAX_DEPTH + 1 - depth, 0, |paths|
  {
    if paths == [] then Run(visited, [], true)
    else
      var r := Visit(g, paths[0], depth + 1, visited);
      if !r.ok then r
      else
        var rest := VisitAll(g, paths[1..], depth, r.visited);
        rest.(out := r.out + rest.out)
  }

  /** The same run, with `done` yielded before. */
  function After(done: seq<Path>, r: Run): Run {
    r.(out := done + r.out)
  }

  /** The generator: the visited set is shared by all calls, `out` is what was yielded so far. */
  class Walker {
    const g: Graph
    var visited: set<Path>
    var out: seq<Path>

    constructor (g: Graph)
      ensures this.g == g && visited == {} && out == []
    {
      this.g := g;
      visited, out := {}, [];
    }

    method IterDepsRecursive(path: Path, depth: nat) returns (ok: bool)
      requires depth <= MAX_DEPTH + 1
      modifies this
      ensures var r := Visit(g, path, depth, old(visited));
              ok == r.ok && visited == r.visited && out == old(out) + r.out
      decreases MAX_DEPTH + 1 - depth, 1
    {
      var isFirst := depth == 0;
      if depth > MAX_DEPTH {
        return false;
      }
      var node := g.norm(path);
      if node in visited {
        return true;
      }
      visited := visited + {node};
      if !isFirst {
        out := out + [node];
      }
      ok := IterAll(g.deps(node), depth);
    }

    /** The loop over the dependencies. */
    method IterAll(deps: seq<Path>, depth: nat) returns (ok: bool)
      requires depth <= MAX_DEPTH
      modifies this
      ensures var r := VisitAll(g, deps, depth, old(visited));
              ok == r.ok && visited == r.visited && out == old(out) + r.out
      decreases MAX_DEPTH + 1 - depth, 0
    {
      hide Visit;
      hide VisitAll;
      ghost var done: seq<Path> := [];
      assert deps[0..] == deps;
      for i := 0 to |deps|
        invariant out == old(out) + done
        invariant VisitAll(g, deps, depth, old(visited)) == After(done, VisitAll(g, deps[i..], depth, visited))
      {
        AfterStep(g, deps[i..], depth, visited, done);
        assert deps[i..][0] == deps[i] && deps[i..][1..] == deps[i + 1..];
        ghost var r := Visit(g, deps[i], depth + 1, visited);
        ok := IterDepsRecursive(deps[i], depth + 1);
        done := done + r.out;
        assert out == old(out) + done;
        if !ok {
          return false;
        }
      }
      assert deps[|deps|..] == [];
      AfterNone(g, depth, visited, done);
      ok := true;
    }
  }

  lemma AfterNone(g: Graph, depth: nat, visited: set<Path>, done: seq<Path>)
    requires depth <= MAX_DEPTH
    ensures After(done, VisitAll(g, [], depth, visited)) == Run(visited, done, true)
  {
  }

  lemma AfterStep(g: Graph, deps: seq<Path>, depth: nat, visited: set<Path>, done: seq<Path>)
    requires deps != [] && depth <= MAX_DEPTH
    ensures var r := Visit(g, deps[0], depth + 1, visited);
            After(done, VisitAll(g, deps, depth, visited))
            == if !r.ok then Run(r.visited, done + r.out, false)
               else After(done + r.out, VisitAll(g, deps[1..], depth, r.visited))
  {
    hide Visit;
    var r := Visit(g, deps[0], depth + 1, visited);
    if r.ok {
      var rest := VisitAll(g, deps[1..], depth, r.visited);
      assert done + (r.out + rest.out) == (done + r.out) + rest.out;
    }
  }

  // ----- Reachability -----

  /** `w` is a dependency of `u`. */
  predicate Edge(g: Graph, u: Path, w: Path) {
    exists i | 0 <= i < |g.deps(u)| :: g.norm(g.deps(u)[i]) == w
  }

  predicate IsPath(g: Graph, p: seq<Path>) {
    p != [] && forall i | 0 <= i < |p| - 1 :: Edge(g, p[i], p[i + 1])
  }

  ghost predicate Reachable(g: Graph, u: Path, w: Path) {
    exists p :: IsPath(g, p) && p[0] == u && p[|p| - 1] == w
  }

  predicate Distinct(s: seq<Path>) {
    forall i, j | 0 <= i < j < |s| :: s[i] != s[j]
  }

  lemma DistinctAppend(s: seq<Path>, t: seq<Path>)
    requires Distinct(s) && Distinct(t) && forall x | x in s :: x !in t
    ensures Distinct(s + t)
  {
    forall i, j | 0 <= i < j < |s + t| ensures (s + t)[i] != (s + t)[j] {
      if i < |s| <= j {
        assert s[i] in s && t[j - |s|] in t;
      }
    }
  }

  lemma ReachSelf(g: Graph, u: Path)
    ensures Reachable(g, u, u)
  {
    assert IsPath(g, [u]);
  }

  lemma ReachStep(g: Graph, u: Path, v: Path, w: Path)
    requires Edge(g, u, v) && Reachable(g, v, w)
    ensures Reachable(g, u, w)
  {
    var p :| IsPath(g, p) && p[0] == v && p[|p| - 1] == w;
    var q := [u] + p;
    forall i | 0 <= i < |q| - 1 ensures Edge(g, q[i], q[i + 1]) {
      assert i > 0 ==> Edge(g, p[i - 1], p[i]);
    }
    assert IsPath(g, q);
  }

  /** Every dependency of `x` is in `s`. */
  ghost predicate Closed(g: Graph, x: Path, s: set<Path>) {
    forall w :: Edge(g, x, w) ==> w in s
  }

  /** What a run that ended adds: distinct, reachable, new, and closed. */
  ghost predicate Explores(g: Graph, visited: set<Path>, r: Run, skipped: set<Path>) {
    && visited <= r.visited
    && Distinct(r.out)
    && (forall x :: x in r.visited && x !in visited <==> x in r.out || (x in skipped && x !in visited))
    && (forall x | x in r.out :: x !in skipped)
    && (forall x | x in r.visited && x !in visited :: Closed(g, x, r.visited))
  }

  lemma {:induction false} VisitExplores(g: Graph, path: Path, depth: nat, visited: set<Path>)
    requires depth <= MAX_DEPTH + 1 && Visit(g, path, depth, visited).ok
    ensures var r := Visit(g, path, depth, visited);
            && Explores(g, visited, r, if depth == 0 then {g.norm(path)} else {})
            && g.norm(path) in r.visited
            && forall x | x in r.out :: Reachable(g, g.norm(path), x)
    decreases MAX_DEPTH + 1 - depth, 1, 0
  {
    var node := g.norm(path);
    ReachSelf(g, node);
    if node !in visited {
      var all := VisitAll(g, g.deps(node), depth, visited + {node});
      AllExplore(g, g.deps(node), depth, visited + {node});
      forall w | Edge(g, node, w) ensures w in all.visited {
      }
      forall x | x in all.out ensures Reachable(g, node, x) {
        var i :| 0 <= i < |g.deps(node)| && Reachable(g, g.norm(g.deps(node)[i]), x);
        ReachStep(g, node, g.norm(g.deps(node)[i]), x);
      }
      var r := Visit(g, path, depth, visited);
      assert r.visited == all.visited;
      assert Closed(g, node, r.visited);
      assert node !in all.out;
    }
  }

  /** `x` can be reached from one of the paths. */
  ghost predicate FromSome(g: Graph, paths: seq<Path>, x: Path) {
    exists i :: 0 <= i < |paths| && Reachable(g, g.norm(paths[i]), x)
  }

  lemma FromEither(g: Graph, paths: seq<Path>, x: Path)
    requires paths != [] && (Reachable(g, g.norm(paths[0]), x) || FromSome(g, paths[1..], x))
    ensures FromSome(g, paths, x)
  {
    hide Reachable;
    if !Reachable(g, g.norm(paths[0]), x) {
      var i :| 0 <= i < |paths[1..]| && Reachable(g, g.norm(paths[1..][i]), x);
      assert paths[i + 1] == paths[1..][i];
    }
  }

  lemma AllStep(g: Graph, paths: seq<Path>, depth: nat, visited: set<Path>)
    requires depth <= MAX_DEPTH && paths != [] && VisitAll(g, paths, depth, visited).ok
    ensures var first := Visit(g, paths[0], depth + 1, visited);
            var rest := VisitAll(g, paths[1..], depth, first.visited);
            first.ok && rest.ok && VisitAll(g, paths, depth, visited) == Run(rest.visited, first.out + rest.out, true)
  {
    hide Visit;
  }

  lemma AllNone(g: Graph, paths: seq<Path>, depth: nat, visited: set<Path>)
    requires depth <= MAX_DEPTH && paths == []
    ensures VisitAll(g, paths, depth, visited) == Run(visited, [], true)
    ensures Explores(g, visited, Run(visited, [], true), {})
  {
  }

  lemma {:induction false} AllExplore(g: Graph, paths: seq<Path>, depth: nat, visited: set<Path>)
    requires depth <= MAX_DEPTH && VisitAll(g, paths, depth, visited).ok
    ensures var r := VisitAll(g, paths, depth, visited);
            && Explores(g, visited, r, {})
            && (forall i | 0 <= i < |paths| :: g.norm(paths[i]) in r.visited)
            && (forall x | x in r.out :: FromSome(g, paths, x))
    decreases MAX_DEPTH + 1 - depth, 0, |paths|
  {
    hide *;
    if paths != [] {
      AllStep(g, paths, depth, visited);
      var first := Visit(g, paths[0], depth + 1, visited);
      var rest := VisitAll(g, paths[1..], depth, first.visited);
      VisitExplores(g, paths[0], depth + 1, visited);
      AllExplore(g, paths[1..], depth, first.visited);
      ExploresThen(g, visited, first, rest);
      forall i | 0 <= i < |paths| ensures g.norm(paths[i]) in rest.visited {
        assert i > 0 ==> paths[i] == paths[1..][i - 1];
      }
      forall x | x in first.out + rest.out ensures FromSome(g, paths, x) {
        FromEither(g, paths, x);
      }
    } else {
      AllNone(g, paths, depth, visited);
    }
  }

  lemma ExploresThen(g: Graph, visited: set<Path>, first: Run, rest: Run)
    requires Explores(g, visited, first, {}) && Explores(g, first.visited, rest, {})
    ensures Explores(g, visited, Run(rest.visited, first.out + rest.out, true), {})
    ensures first.visited <= rest.visited
  {
    assert forall x | x in first.out :: x in first.visited;
    assert forall x | x in rest.out :: x !in first.visited;
    DistinctAppend(first.out, rest.out);
    hide Distinct;
  }

  /** A set closed under dependencies contains everything reachable from its members. */
  lemma {:induction false} ClosedContains(g: Graph, s: set<Path>, p: seq<Path>)
    requires (forall x | x in s :: Closed(g, x, s)) && IsPath(g, p) && p[0] in s
    ensures p[|p| - 1] in s
    decreases |p|
  {
    if |p| > 1 {
      assert Edge(g, p[0], p[1]);
      var q := p[1..];
      forall i | 0 <= i < |q| - 1 ensures Edge(g, q[i], q[i + 1]) {
        assert Edge(g, p[i + 1], p[i + 2]);
      }
      ClosedContains(g, s, q);
    }
  }

  /**
    Unless the depth error is raised, the generator yields every node reachable
    from the root, other than the root, exactly once, and nothing else.
   */
  lemma YieldsClosure(g: Graph, root: Path)
    requires Visit(g, root, 0, {}).ok
    ensures var out := Visit(g, root, 0, {}).out;
            && Distinct(out)
            && forall x :: x in out <==> Reachable(g, g.norm(root), x) && x != g.norm(root)
  {
    VisitExplores(g, root, 0, {});
    var r := Visit(g, root, 0, {});
    forall x | Reachable(g, g.norm(root), x) ensures x in r.visited {
      var p :| IsPath(g, p) && p[0] == g.norm(root) && p[|p| - 1] == x;
      ClosedContains(g, r.visited, p);
    }
  }

  // ----- The depth error -----

  /** `stack` are the nodes on the call stack, in order. */
  ghost predicate OnStack(g: Graph, stack: seq<Path>, depth: nat, visited: set<Path>) {
    && |stack| == depth && Distinct(stack)
    && (forall x | x in stack :: x in visited)
    && (stack != [] ==> IsPath(g, stack))
  }

  ghost predicate LongPath(g: Graph, stack: seq<Path>, p: seq<Path>) {
    IsPath(g, p) && Distinct(p) && |p| == MAX_DEPTH + 1 && stack <= p
  }

  lemma {:induction false} VisitFails(g: Graph, path: Path, depth: nat, visited: set<Path>, stack: seq<Path>) returns (p: seq<Path>)
    requires depth <= MAX_DEPTH + 1 && !Visit(g, path, depth, visited).ok
    requires OnStack(g, stack, depth, visited)
    requires depth > 0 ==> Edge(g, stack[depth - 1], g.norm(path))
    ensures LongPath(g, stack, p) && (depth == 0 ==> p[0] == g.norm(path))
    decreases MAX_DEPTH + 1 - depth, 1, 0
  {
    if depth > MAX_DEPTH {
      p := stack;
    } else {
      var node := g.norm(path);
      var stack1 := stack + [node];
      assert stack1[depth] == node;
      forall i | 0 <= i < |stack1| - 1 ensures Edge(g, stack1[i], stack1[i + 1]) {
        assert i < depth - 1 ==> Edge(g, stack[i], stack[i + 1]);
      }
      p := AllFail(g, g.deps(node), depth, visited + {node}, stack1);
      assert stack1 <= p;
    }
  }

  lemma {:induction false} AllFail(g: Graph, paths: seq<Path>, depth: nat, visited: set<Path>, stack: seq<Path>) returns (p: seq<Path>)
    requires depth <= MAX_DEPTH && !VisitAll(g, paths, depth, visited).ok
    requires OnStack(g, stack, depth + 1, visited)
    requires forall i | 0 <= i < |paths| :: Edge(g, stack[depth], g.norm(paths[i]))
    ensures LongPath(g, stack, p)
    decreases MAX_DEPTH + 1 - depth, 0, |paths|
  {
    var first := Visit(g, paths[0], depth + 1, visited);
    if first.ok {
      VisitExplores(g, paths[0], depth + 1, visited);
      p := AllFail(g, paths[1..], depth, first.visited, stack);
    } else {
      p := VisitFails(g, paths[0], depth + 1, visited, stack);
    }
  }

  lemma {:induction false} DistinctFits(s: seq<Path>, t: set<Path>)
    requires Distinct(s) && forall x | x in s :: x in t
    ensures |s| <= |t|
    decreases |s|
  {
    if s != [] {
      var rest := s[1..];
      forall x | x in rest ensures x in t - {s[0]} {
        var i :| 0 <= i < |rest| && rest[i] == x;
        assert s[i + 1] == x && s[0] != s[i + 1];
      }
      DistinctFits(rest, t - {s[0]});
    }
  }

  lemma {:induction false} PathStaysReachable(g: Graph, p: seq<Path>, i: nat)
    requires IsPath(g, p) && i < |p|
    ensures Reachable(g, p[0], p[i])
  {
    var q := p[..i + 1];
    forall j | 0 <= j < |q| - 1 ensures Edge(g, q[j], q[j + 1]) {
      assert Edge(g, p[j], p[j + 1]);
    }
    assert IsPath(g, q);
  }

  /** The depth error needs a simple path of 21 nodes, so it is never raised when at most 20 are reachable. */
  lemma SmallGraphsNeverRaise(g: Graph, root: Path, nodes: set<Path>)
    requires forall x :: Reachable(g, g.norm(root), x) ==> x in nodes
    requires |nodes| <= MAX_DEPTH
    ensures Visit(g, root, 0, {}).ok
  {
    if !Visit(g, root, 0, {}).ok {
      var p := VisitFails(g, root, 0, {}, []);
      forall x | x in p ensures x in nodes {
        var i :| 0 <= i < |p| && p[i] == x;
        PathStaysReachable(g, p, i);
      }
      DistinctFits(p, nodes);
    }
  }
}
