/**
  The module graph of `tools/check-layers.py --graph`: a memoised depth-first search that stops at a
  cycle and otherwise leaves the depth of every module.
*/
module LayerGraph {

  /** The modules and what each one uses. */
  type Graph = map<string, set<string>>

  ghost predicate Closed(deps: Graph) {
    forall m | m in deps :: deps[m] <= deps.Keys
  }

  predicate Edge(deps: Graph, a: string, b: string) { a in deps && b in deps[a] }

  /** Every step of the path is an edge. */
  ghost predicate IsPath(deps: Graph, path: seq<string>) {
    forall i | 0 <= i < |path| - 1 :: Edge(deps, path[i], path[i + 1])
  }

  ghost predicate IsCycle(deps: Graph, path: seq<string>) {
    |path| > 1 && IsPath(deps, path) && path[0] == path[|path| - 1]
  }

  ghost predicate HasCycle(deps: Graph) { exists path :: IsCycle(deps, path) }

  ghost predicate GradedAt(below: set<string>, depth: map<string, nat>, d: nat)
    requires below <= depth.Keys
  {
    && (forall x | x in below :: depth[x] < d)
    && (d > 0 ==> exists x :: x in below && depth[x] == d - 1)
  }

  /** Each known depth is one more than the largest depth below it, and zero at the bottom. */
  ghost predicate Graded(deps: Graph, depth: map<string, nat>) {
    forall m | m in depth :: m in deps && deps[m] <= depth.Keys && GradedAt(deps[m], depth, depth[m])
  }

  lemma PathFrom(deps: Graph, path: seq<string>, k: nat)
    requires IsPath(deps, path) && k <= |path|
    ensures IsPath(deps, path[k..])
  {
    var rest := path[k..];
    forall i | 0 <= i < |rest| - 1
      ensures Edge(deps, rest[i], rest[i + 1])
    {
      assert Edge(deps, path[k + i], path[k + i + 1]);
    }
  }

  /** Depths fall along every path, so paths from a module are no longer than its depth allows. */
  lemma {:induction false} PathIsBounded(deps: Graph, depth: map<string, nat>, path: seq<string>)
    requires Graded(deps, depth) && |path| > 0 && path[0] in depth && IsPath(deps, path)
    ensures |path| <= depth[path[0]] + 1
    ensures path[|path| - 1] in depth && (|path| > 1 ==> depth[path[|path| - 1]] < depth[path[0]])
    decreases |path|
  {
    if |path| > 1 {
      assert Edge(deps, path[0], path[1]);
      PathFrom(deps, path, 1);
      PathIsBounded(deps, depth, path[1..]);
    }
  }

  /** And a path of exactly that length exists. */
  lemma {:induction false} LongestPath(deps: Graph, depth: map<string, nat>, m: string) returns (path: seq<string>)
    requires Graded(deps, depth) && m in depth
    ensures |path| == depth[m] + 1 && path[0] == m && IsPath(deps, path)
    decreases depth[m]
  {
    path := [m];
    if depth[m] > 0 {
      var x :| x in deps[m] && depth[x] == depth[m] - 1;
      var rest := LongestPath(deps, depth, x);
      path := [m] + rest;
      assert forall i | 0 <= i < |rest| - 1 :: Edge(deps, rest[i], rest[i + 1]);
      assert forall i | 0 < i < |path| - 1 :: path[i] == rest[i - 1] && path[i + 1] == rest[i];
    }
  }

  /** A graph whose modules all have a depth has no cycle. */
  lemma GradedIsAcyclic(deps: Graph, depth: map<string, nat>)
    requires Graded(deps, depth) && depth.Keys == deps.Keys
    ensures !HasCycle(deps)
  {
    forall path | IsPath(deps, path) && |path| > 1
      ensures path[0] != path[|path| - 1]
    {
      assert Edge(deps, path[0], path[1]);
      PathIsBounded(deps, depth, path);
    }
  }

  /** The depths already known stay. */
  ghost predicate Extends(before: map<string, nat>, after: map<string, nat>) {
    forall m | m in before :: m in after && after[m] == before[m]
  }

  lemma GradedStep(below: set<string>, before: map<string, nat>, after: map<string, nat>, best: nat, x: string)
    requires below <= before.Keys && GradedAt(below, before, best) && Extends(before, after) && x in after
    ensures below + {x} <= after.Keys
    ensures GradedAt(below + {x}, after, if after[x] + 1 > best then after[x] + 1 else best)
  {
    if after[x] + 1 <= best {
      var y :| y in below && before[y] == best - 1;
      assert y in below + {x} && after[y] == best - 1;
    } else {
      assert x in below + {x} && after[x] == after[x] + 1 - 1;
    }
  }

  lemma GradedExtended(deps: Graph, depth: map<string, nat>, m: string, d: nat)
    requires Graded(deps, depth) && m in deps && m !in depth && deps[m] <= depth.Keys && GradedAt(deps[m], depth, d)
    ensures Graded(deps, depth[m := d])
  {
    var after := depth[m := d];
    forall k | k in after
      ensures k in deps && deps[k] <= after.Keys && GradedAt(deps[k], after, after[k])
    {
      assert k != m ==> GradedAt(deps[k], depth, depth[k]);
    }
  }

  class LayerSearch {
    const deps: Graph
    var depth: map<string, nat>

    ghost predicate Valid()
      reads this
    {
      Closed(deps) && Graded(deps, depth)
    }

    constructor (deps: Graph)
      requires Closed(deps)
      ensures Valid() && this.deps == deps && depth == map[]
    {
      this.deps, depth := deps, map[];
    }

    lemma Deeper(trail: seq<string>, m: string, x: string)
      requires IsPath(deps, trail + [m]) && Edge(deps, m, x)
      ensures IsPath(deps, (trail + [m]) + [x])
    {
      var path, longer := trail + [m], (trail + [m]) + [x];
      forall i | 0 <= i < |longer| - 1
        ensures Edge(deps, longer[i], longer[i + 1])
      {
        if i < |path| - 1 {
          assert Edge(deps, path[i], path[i + 1]);
        }
      }
    }

    lemma ClosesCycle(trail: seq<string>, m: string)
      requires IsPath(deps, trail + [m]) && m in trail
      ensures HasCycle(deps)
    {
      var k :| 0 <= k < |trail| && trail[k] == m;
      var path := trail + [m];
      PathFrom(deps, path, k);
      assert IsCycle(deps, path[k..]);
    }

    /** The search from `m` with the modules of `stack` open above it; `trail` is their path. */
    method Dfs(m: string, stack: set<string>, ghost trail: seq<string>) returns (ok: bool)
      requires Valid() && m in deps && stack <= deps.Keys && stack !! depth.Keys
      requires IsPath(deps, trail + [m]) && stack == set x | x in trail
      modifies this
      ensures !ok ==> HasCycle(deps)
      ensures ok ==> Valid() && m in depth && Extends(old(depth), depth) && stack !! depth.Keys
      decreases deps.Keys - stack
    {
      if m in depth {
        return true;
      }
      if m in stack {
        ClosesCycle(trail, m);
        return false;
      }
      var below, best := deps[m], 0;
      var rest := below;
      while rest != {}
        invariant rest <= below && Valid() && Extends(old(depth), depth) && stack + {m} !! depth.Keys
        invariant below - rest <= depth.Keys && GradedAt(below - rest, depth, best)
        decreases |rest|
      {
        var x :| x in rest;
        Deeper(trail, m, x);
        ghost var before := depth;
        ok := Dfs(x, stack + {m}, trail + [m]);
        if !ok {
          return false;
        }
        GradedStep(below - rest, before, depth, best, x);
        assert below - (rest - {x}) == below - rest + {x};
        best := if depth[x] + 1 > best then depth[x] + 1 else best;
        rest := rest - {x};
      }
      assert below - {} == below;
      GradedExtended(deps, depth, m, best);
      depth := depth[m := best];
      ok := true;
    }

    /** The whole run: it reports a cycle exactly when there is one. */
    method Run() returns (acyclic: bool)
      requires Valid() && depth == map[]
      modifies this
      ensures acyclic <==> !HasCycle(deps)
      ensures acyclic ==> Valid() && depth.Keys == deps.Keys
    {
      var rest := deps.Keys;
      while rest != {}
        invariant Valid() && rest <= deps.Keys && deps.Keys - rest <= depth.Keys
        decreases |rest|
      {
        var m :| m in rest;
        acyclic := Dfs(m, {}, []);
        if !acyclic {
          return false;
        }
        rest := rest - {m};
      }
      GradedIsAcyclic(deps, depth);
      acyclic := true;
    }
  }
}
