// The dependency graph of plugin manifests: what "resolvable" means, said twice.
module PluginGraph {

  type Name = string

  // One opened and validated plugin (internal/plugin/loader/loader.go).
  datatype Candidate = Candidate(path: string, name: Name, dependencies: seq<Name>)

  type Graph = map<Name, Candidate>

  ghost predicate WellNamed(g: Graph) {
    forall n :: n in g ==> g[n].name == n
  }

  ghost predicate Depends(g: Graph, n: Name, d: Name) {
    n in g && d in g[n].dependencies
  }

  // ---------------------------------------------------------------- paths

  // p follows dependencies; only its last name may be absent from the graph.
  ghost predicate IsPath(g: Graph, p: seq<Name>) {
    && p != []
    && forall i :: 0 <= i < |p| - 1 ==> Depends(g, p[i], p[i + 1])
  }

  ghost predicate PathFromTo(g: Graph, p: seq<Name>, a: Name, b: Name) {
    IsPath(g, p) && p[0] == a && p[|p| - 1] == b
  }

  // b belongs to the dependency closure of a.
  ghost predicate Reaches(g: Graph, a: Name, b: Name) {
    exists p :: PathFromTo(g, p, a, b)
  }

  ghost predicate OnCycle(g: Graph, a: Name) {
    exists p :: PathFromTo(g, p, a, a) && |p| >= 2
  }

  lemma ReachesSelf(g: Graph, a: Name)
    ensures Reaches(g, a, a)
  {
    assert PathFromTo(g, [a], a, a);
  }

  lemma ReachesThrough(g: Graph, a: Name, d: Name, b: Name)
    requires Depends(g, a, d) && Reaches(g, d, b)
    ensures Reaches(g, a, b)
  {
    var p :| PathFromTo(g, p, d, b);
    var q := [a] + p;
    forall i | 0 <= i < |q| - 1 ensures Depends(g, q[i], q[i + 1]) {
      if i > 0 {
        assert q[i] == p[i - 1] && q[i + 1] == p[i];
      }
    }
    assert PathFromTo(g, q, a, b);
  }

  lemma PathExtends(g: Graph, p: seq<Name>, d: Name)
    requires IsPath(g, p) && Depends(g, p[|p| - 1], d)
    ensures IsPath(g, p + [d])
    ensures Reaches(g, p[0], d)
    ensures d in p ==> OnCycle(g, d)
  {
    var q := p + [d];
    assert PathFromTo(g, q, p[0], d);
    if i :| 0 <= i < |p| && p[i] == d {
      var r := q[i..];
      forall k | 0 <= k < |r| - 1 ensures Depends(g, r[k], r[k + 1]) {
        assert r[k] == q[i + k] && r[k + 1] == q[i + k + 1];
      }
      assert PathFromTo(g, r, d, d);
    }
  }

  // ---------------------------------------------------------------- resolvability

  // n can be loaded with at most rank levels of dependencies below it.
  ghost predicate ResolvableIn(g: Graph, n: Name, rank: nat)
    decreases rank
  {
    rank > 0 && n in g && forall d :: d in g[n].dependencies ==> ResolvableIn(g, d, rank - 1)
  }

  ghost predicate Resolvable(g: Graph, n: Name) {
    exists rank: nat :: ResolvableIn(g, n, rank)
  }

  lemma {:induction false} RankWeakens(g: Graph, n: Name, rank: nat, more: nat)
    requires ResolvableIn(g, n, rank) && rank <= more
    ensures ResolvableIn(g, n, more)
    decreases rank
  {
    forall d | d in g[n].dependencies ensures ResolvableIn(g, d, more - 1) {
      RankWeakens(g, d, rank - 1, more - 1);
    }
  }

  lemma {:induction false} RanksBound(g: Graph, deps: seq<Name>) returns (rank: nat)
    requires forall d :: d in deps ==> Resolvable(g, d)
    ensures forall d :: d in deps ==> ResolvableIn(g, d, rank)
  {
    if deps == [] {
      rank := 0;
    } else {
      var head := deps[0];
      assert head in deps;
      var first: nat :| ResolvableIn(g, head, first);
      var rest := RanksBound(g, deps[1..]);
      rank := if first > rest then first else rest;
      forall d | d in deps ensures ResolvableIn(g, d, rank) {
        if d == head {
          RankWeakens(g, d, first, rank);
        } else {
          assert d in deps[1..];
          RankWeakens(g, d, rest, rank);
        }
      }
    }
  }

  // A plugin is resolvable exactly when it is present and all its dependencies are.
  lemma ResolvableStep(g: Graph, n: Name)
    ensures Resolvable(g, n) <==> n in g && forall d :: d in g[n].dependencies ==> Resolvable(g, d)
  {
    if Resolvable(g, n) {
      var rank: nat :| ResolvableIn(g, n, rank);
      assert forall d :: d in g[n].dependencies ==> ResolvableIn(g, d, rank - 1);
    }
    if n in g && forall d :: d in g[n].dependencies ==> Resolvable(g, d) {
      var rank := RanksBound(g, g[n].dependencies);
      assert ResolvableIn(g, n, rank + 1);
    }
  }

  lemma {:induction false} RankAlongPath(g: Graph, p: seq<Name>, k: nat, rank: nat)
    requires IsPath(g, p) && k < |p| && ResolvableIn(g, p[0], rank)
    ensures rank > k && ResolvableIn(g, p[k], rank - k)
  {
    if k > 0 {
      RankAlongPath(g, p, k - 1, rank);
      assert Depends(g, p[k - 1], p[k - 1 + 1]);
    }
  }

  lemma {:induction false} NoCycleBelow(g: Graph, p: seq<Name>, a: Name, rank: nat)
    requires PathFromTo(g, p, a, a) && |p| >= 2 && ResolvableIn(g, a, rank)
    ensures false
    decreases rank
  {
    RankAlongPath(g, p, |p| - 1, rank);
    NoCycleBelow(g, p, a, rank - (|p| - 1));
  }

  lemma {:induction false} AcyclicResolves(g: Graph, p: seq<Name>, n: Name, above: set<Name>)
    requires IsPath(g, p) && p[|p| - 1] == n
    requires above == (set i | 0 <= i < |p| - 1 :: p[i])
    requires forall m :: Reaches(g, n, m) ==> m in g && !OnCycle(g, m)
    ensures ResolvableIn(g, n, |g.Keys - above|)
    decreases |g.Keys - above|
  {
    ReachesSelf(g, n);
    assert n !in above by {
      if i :| 0 <= i < |p| - 1 && p[i] == n {
        RevisitCloses(g, p, i);
      }
    }
    var below := above + {n};
    assert g.Keys - above == (g.Keys - below) + {n};
    forall d | d in g[n].dependencies ensures ResolvableIn(g, d, |g.Keys - above| - 1) {
      PathExtends(g, p, d);
      var q := p + [d];
      assert below == (set i | 0 <= i < |q| - 1 :: q[i]) by {
        assert forall i :: 0 <= i < |p| ==> q[i] == p[i];
      }
      forall m | Reaches(g, d, m) ensures m in g && !OnCycle(g, m) {
        ReachesThrough(g, n, d, m);
      }
      AcyclicResolves(g, q, d, below);
    }
  }

  lemma RevisitCloses(g: Graph, p: seq<Name>, i: nat)
    requires IsPath(g, p) && i < |p| - 1 && p[i] == p[|p| - 1]
    ensures OnCycle(g, p[i])
  {
    var r := p[i..];
    forall k | 0 <= k < |r| - 1 ensures Depends(g, r[k], r[k + 1]) {
      assert r[k] == p[i + k] && r[k + 1] == p[i + k + 1];
    }
    assert PathFromTo(g, r, p[i], p[i]);
  }

  // Resolvable names are exactly those whose whole dependency closure is present and
  // free of cycles.
  lemma ClosureCharacterises(g: Graph, n: Name)
    ensures Resolvable(g, n) <==> forall m :: Reaches(g, n, m) ==> m in g && !OnCycle(g, m)
  {
    if Resolvable(g, n) {
      var rank: nat :| ResolvableIn(g, n, rank);
      forall m | Reaches(g, n, m) ensures m in g && !OnCycle(g, m) {
        var p :| PathFromTo(g, p, n, m);
        RankAlongPath(g, p, |p| - 1, rank);
        if q :| PathFromTo(g, q, m, m) && |q| >= 2 {
          NoCycleBelow(g, q, m, rank - (|p| - 1));
        }
      }
    }
    if forall m :: Reaches(g, n, m) ==> m in g && !OnCycle(g, m) {
      assert IsPath(g, [n]);
      AcyclicResolves(g, [n], n, {});
    }
  }
}
