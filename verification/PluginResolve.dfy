// internal/plugin/loader/resolve.go: grouping, sorting, three-colour depth-first search.
module PluginResolve {
  import opened Wrappers
  import opened PluginGraph
  import opened StringOrder

  datatype ResolveError =
    | DuplicateName
    | CycleAt(name: Name)
    | Missing(name: Name)

  // The search state: state 2 is black, state 1 is gray.
  datatype Search = Search(black: set<Name>, gray: set<Name>,
                           blocked: map<Name, ResolveError>, ordered: seq<Candidate>)

  function Unvisited(g: Graph, s: Search): set<Name> {
    g.Keys - s.black - s.gray
  }

  function Blocked(s: Search, name: Name): Option<ResolveError> {
    if name in s.blocked then Some(s.blocked[name]) else None
  }

  lemma UnvisitedShrinks(g: Graph, s: Search, name: Name)
    requires name in g && name !in s.black && name !in s.gray
    ensures Unvisited(g, s.(gray := s.gray + {name})) < Unvisited(g, s)
  {
    assert name in Unvisited(g, s) && name !in Unvisited(g, s.(gray := s.gray + {name}));
  }

  // One call of the recursive visit closure.
  function Visit(g: Graph, s: Search, name: Name): (r: (Search, Option<ResolveError>))
    ensures s.black <= r.0.black && r.0.gray == s.gray
    decreases Unvisited(g, s), 0
  {
    if name in s.gray then (s, Some(CycleAt(name)))
    else if name in s.black then (s, Blocked(s, name))
    else if name !in g then (s, Some(Missing(name)))
    else
      var open := s.(gray := s.gray + {name});
      assert Unvisited(g, s) == Unvisited(g, open) + {name};
      var (t, err) := VisitAll(g, open, g[name].dependencies);
      var closed := t.(black := t.black + {name}, gray := t.gray - {name});
      match err
      case Some(e) => (closed.(blocked := t.blocked[name := e]), Some(e))
      case None => (closed.(ordered := t.ordered + [g[name]]), None)
  }

  // The loop over one plugin's dependencies, stopping at the first error.
  function VisitAll(g: Graph, s: Search, deps: seq<Name>): (r: (Search, Option<ResolveError>))
    ensures s.black <= r.0.black && r.0.gray == s.gray
    decreases Unvisited(g, s), 1, |deps|
  {
    if deps == [] then (s, None)
    else
      var (t, err) := Visit(g, s, deps[0]);
      assert Unvisited(g, t) <= Unvisited(g, s);
      if err.Some? then (t, err) else VisitAll(g, t, deps[1..])
  }

  // ---------------------------------------------------------------- soundness of the search

  // What an error stored for n says about the graph.
  ghost predicate Explains(g: Graph, n: Name, e: ResolveError) {
    match e
    case DuplicateName => false
    case CycleAt(m) => Reaches(g, n, m) && OnCycle(g, m)
    case Missing(m) => Reaches(g, n, m) && m !in g
  }

  lemma ExplainsBlocks(g: Graph, n: Name, e: ResolveError)
    requires Explains(g, n, e)
    ensures !Resolvable(g, n)
  {
    ClosureCharacterises(g, n);
  }

  lemma ExplainsUp(g: Graph, n: Name, d: Name, e: ResolveError)
    requires Depends(g, n, d) && Explains(g, d, e)
    ensures Explains(g, n, e)
  {
    match e
    case CycleAt(m) => ReachesThrough(g, n, d, m);
    case Missing(m) => ReachesThrough(g, n, d, m);
  }

  function NamesOf(ordered: seq<Candidate>): seq<Name> {
    seq(|ordered|, i requires 0 <= i < |ordered| => ordered[i].name)
  }

  // Every plugin comes after all its dependencies.
  ghost predicate DependencyFirst(ordered: seq<Candidate>) {
    forall i, d :: 0 <= i < |ordered| && d in ordered[i].dependencies ==> d in NamesOf(ordered[..i])
  }

  // The invariant of the whole search.
  ghost predicate Sound(g: Graph, dups: set<Name>, s: Search) {
    && s.black <= g.Keys && s.black !! s.gray
    && (forall n :: n in s.black ==>
          if n in s.blocked then !Resolvable(g, n) && Explains(g, n, s.blocked[n])
          else Resolvable(g, n) && n in NamesOf(s.ordered))
    && (forall n :: n in s.blocked ==> n in s.black || n in dups)
    && (forall n :: n in dups ==> n in s.blocked && s.blocked[n] == DuplicateName)
    && (forall i :: 0 <= i < |s.ordered| ==>
          var n := s.ordered[i].name;
          n in s.black && n !in s.blocked && s.ordered[i] == g[n])
    && Distinct(NamesOf(s.ordered))
    && DependencyFirst(s.ordered)
  }

  ghost function Elements(p: seq<Name>): set<Name> {
    set i | 0 <= i < |p| :: p[i]
  }

  // p is the chain of plugins being visited, ending with the one visited now.
  ghost predicate Stacked(g: Graph, s: Search, p: seq<Name>) {
    IsPath(g, p) && s.gray == Elements(p[..|p| - 1])
  }

  // Closing a plugin whose dependencies are all in place.
  lemma CloseLoaded(g: Graph, dups: set<Name>, t: Search, n: Name)
    requires WellNamed(g) && dups !! g.Keys && Sound(g, dups, t)
    requires n in g && n !in t.black && Resolvable(g, n)
    requires forall d :: d in g[n].dependencies ==> d in t.black && Resolvable(g, d)
    ensures Sound(g, dups, t.(black := t.black + {n}, gray := t.gray - {n}, ordered := t.ordered + [g[n]]))
  {
    var after := t.ordered + [g[n]];
    assert NamesOf(after) == NamesOf(t.ordered) + [n];
    forall i, d | 0 <= i < |after| && d in after[i].dependencies ensures d in NamesOf(after[..i]) {
      if i < |t.ordered| {
        assert after[..i] == t.ordered[..i];
      } else {
        assert after[..i] == t.ordered;
      }
    }
  }

  // Closing a plugin below which something is missing or cyclic.
  lemma CloseBlocked(g: Graph, dups: set<Name>, t: Search, n: Name, e: ResolveError)
    requires dups !! g.Keys && Sound(g, dups, t)
    requires n in g && n !in t.black && Explains(g, n, e)
    ensures Sound(g, dups, t.(black := t.black + {n}, gray := t.gray - {n}, blocked := t.blocked[n := e]))
  {
    ExplainsBlocks(g, n, e);
  }

  lemma {:induction false} VisitSound(g: Graph, dups: set<Name>, s: Search, p: seq<Name>)
    requires WellNamed(g) && dups !! g.Keys && Sound(g, dups, s) && Stacked(g, s, p)
    ensures var (t, err) := Visit(g, s, p[|p| - 1]);
      && Sound(g, dups, t)
      && (err.None? ==> p[|p| - 1] in t.black && Resolvable(g, p[|p| - 1]))
      && (err.Some? ==> Explains(g, p[|p| - 1], err.value))
      && (p[|p| - 1] in g && p[|p| - 1] !in s.gray ==> p[|p| - 1] in t.black)
    decreases Unvisited(g, s), 0
  {
    var name := p[|p| - 1];
    ReachesSelf(g, name);
    if name in s.gray {
      var i :| 0 <= i < |p| - 1 && p[i] == name;
      RevisitCloses(g, p, i);
    } else if name in s.black || name !in g {
    } else {
      var open := s.(gray := s.gray + {name});
      assert Unvisited(g, s) == Unvisited(g, open) + {name};
      assert Elements(p) == Elements(p[..|p| - 1]) + {name} by {
        assert p == p[..|p| - 1] + [name];
      }
      VisitAllSound(g, dups, open, p, g[name].dependencies);
      var (t, err) := VisitAll(g, open, g[name].dependencies);
      match err
      case Some(e) => CloseBlocked(g, dups, t, name, e);
      case None =>
        ResolvableStep(g, name);
        CloseLoaded(g, dups, t, name);
    }
  }

  lemma {:induction false} VisitAllSound(g: Graph, dups: set<Name>, s: Search, p: seq<Name>, deps: seq<Name>)
    requires WellNamed(g) && dups !! g.Keys && Sound(g, dups, s)
    requires IsPath(g, p) && s.gray == Elements(p)
    requires forall d :: d in deps ==> Depends(g, p[|p| - 1], d)
    ensures var (t, err) := VisitAll(g, s, deps);
      && Sound(g, dups, t)
      && (err.None? ==> forall d :: d in deps ==> d in t.black && Resolvable(g, d))
      && (err.Some? ==> Explains(g, p[|p| - 1], err.value))
    decreases Unvisited(g, s), 1, |deps|
  {
    if deps == [] {
    } else {
      var d := deps[0];
      assert d in deps;
      PathExtends(g, p, d);
      assert (p + [d])[..|p + [d]| - 1] == p;
      VisitSound(g, dups, s, p + [d]);
      var (t, err) := Visit(g, s, d);
      if err.Some? {
        ExplainsUp(g, p[|p| - 1], d, err.value);
      } else {
        assert Unvisited(g, t) <= Unvisited(g, s);
        assert forall x :: x in deps[1..] ==> x in deps;
        assert deps == [d] + deps[1..];
        VisitAllSound(g, dups, t, p, deps[1..]);
      }
    }
  }

  // ---------------------------------------------------------------- the whole resolution

  // All candidates of one name, in input order.
  function Named(candidates: seq<Candidate>, n: Name): (r: seq<Candidate>)
    ensures forall c :: c in r <==> c in candidates && c.name == n
  {
    if candidates == [] then []
    else
      var init, last := candidates[..|candidates| - 1], candidates[|candidates| - 1];
      Named(init, n) + (if last.name == n then [last] else [])
  }

  function AllNames(candidates: seq<Candidate>): set<Name> {
    set c | c in candidates :: c.name
  }

  // Names declared exactly once.
  function Available(candidates: seq<Candidate>): (g: Graph)
    ensures WellNamed(g)
  {
    map n | n in AllNames(candidates) && |Named(candidates, n)| == 1 :: Named(candidates, n)[0]
  }

  function Duplicates(candidates: seq<Candidate>): set<Name> {
    set n | n in AllNames(candidates) && |Named(candidates, n)| != 1
  }

  function Start(dups: set<Name>): Search {
    Search({}, {}, map n | n in dups :: DuplicateName, [])
  }

  // The loop over all names; the errors it gets back are only those already stored.
  function VisitRoots(g: Graph, s: Search, names: seq<Name>): Search
    decreases |names|
  {
    if names == [] then s else VisitRoots(g, Visit(g, s, names[0]).0, names[1..])
  }

  function Filtered(ordered: seq<Candidate>, blocked: map<Name, ResolveError>): seq<Candidate> {
    if ordered == [] then []
    else
      var init, last := ordered[..|ordered| - 1], ordered[|ordered| - 1];
      Filtered(init, blocked) + (if last.name in blocked then [] else [last])
  }

  function Searched(candidates: seq<Candidate>): Search {
    var g := Available(candidates);
    VisitRoots(g, Start(Duplicates(candidates)), Sorted(g.Keys))
  }

  lemma {:induction false} VisitRootsSound(g: Graph, dups: set<Name>, s: Search, names: seq<Name>)
    requires WellNamed(g) && dups !! g.Keys && Sound(g, dups, s) && s.gray == {}
    ensures var t := VisitRoots(g, s, names);
      && Sound(g, dups, t) && s.black <= t.black && t.gray == {}
      && forall n :: n in names && n in g ==> n in t.black
    decreases |names|
  {
    if names == [] {
    } else {
      assert IsPath(g, [names[0]]);
      VisitSound(g, dups, s, [names[0]]);
      VisitRootsSound(g, dups, Visit(g, s, names[0]).0, names[1..]);
    }
  }

  lemma {:induction false} FilterKeepsAll(ordered: seq<Candidate>, blocked: map<Name, ResolveError>)
    requires forall i :: 0 <= i < |ordered| ==> ordered[i].name !in blocked
    ensures Filtered(ordered, blocked) == ordered
  {
    if ordered == [] {
    } else {
      FilterKeepsAll(ordered[..|ordered| - 1], blocked);
    }
  }

  // The filter keeps exactly what is not blocked.
  lemma {:induction false} FilteredExactly(ordered: seq<Candidate>, blocked: map<Name, ResolveError>, c: Candidate)
    ensures c in Filtered(ordered, blocked) <==> c in ordered && c.name !in blocked
  {
    if ordered != [] {
      var init := ordered[..|ordered| - 1];
      FilteredExactly(init, blocked, c);
      assert ordered == init + [ordered[|ordered| - 1]];
    }
  }

  // resolve returns exactly the plugins whose dependency closure is present, unique and
  // acyclic, dependencies first; every other name is blocked, with a true explanation;
  // the final filter removes nothing.
  lemma ResolveExact(candidates: seq<Candidate>)
    ensures var g, s := Available(candidates), Searched(candidates);
      && Filtered(s.ordered, s.blocked) == s.ordered
      && DependencyFirst(s.ordered) && Distinct(NamesOf(s.ordered))
      && (forall n :: n in NamesOf(s.ordered) <==> Resolvable(g, n))
      && (forall c :: c in s.ordered ==> c in candidates)
      && (forall n :: n in AllNames(candidates) <==> n in NamesOf(s.ordered) || n in s.blocked)
      && (forall n :: n in NamesOf(s.ordered) ==> n !in s.blocked)
      && (forall n :: n in s.blocked ==>
            if n in Duplicates(candidates) then s.blocked[n] == DuplicateName
            else n in g && Explains(g, n, s.blocked[n]))
  {
    hide Sound, Explains, Resolvable, VisitRoots, Available, Duplicates, AllNames, DependencyFirst, Distinct, Start;
    var g, dups, s := Available(candidates), Duplicates(candidates), Searched(candidates);
    NamesSplit(candidates);
    StartSound(g, dups);
    VisitRootsSound(g, dups, Start(dups), Sorted(g.Keys));
    SoundComplete(g, dups, s);
    FilterKeepsAll(s.ordered, s.blocked);
  }

  // Every name is available or a duplicate, and what is available was declared.
  lemma NamesSplit(candidates: seq<Candidate>)
    ensures AllNames(candidates) == Available(candidates).Keys + Duplicates(candidates)
    ensures Available(candidates).Keys !! Duplicates(candidates)
    ensures forall n :: n in Available(candidates) ==> Available(candidates)[n] in candidates
  {
    hide Named;
    var g := Available(candidates);
    forall n | n in g ensures g[n] in candidates {
      assert g[n] in Named(candidates, n);
    }
  }

  lemma StartSound(g: Graph, dups: set<Name>)
    ensures Sound(g, dups, Start(dups)) && Start(dups).gray == {}
  {
  }

  // What the invariant says once every available plugin has been visited.
  lemma SoundComplete(g: Graph, dups: set<Name>, s: Search)
    requires Sound(g, dups, s) && s.black == g.Keys && dups !! g.Keys
    ensures DependencyFirst(s.ordered) && Distinct(NamesOf(s.ordered))
    ensures forall n :: n in NamesOf(s.ordered) <==> Resolvable(g, n)
    ensures forall n :: n in NamesOf(s.ordered) ==> n !in s.blocked
    ensures forall i :: 0 <= i < |s.ordered| ==> s.ordered[i].name !in s.blocked
    ensures forall c :: c in s.ordered ==> c.name in g && c == g[c.name]
    ensures forall n :: n in g.Keys + dups <==> n in NamesOf(s.ordered) || n in s.blocked
    ensures forall n :: n in s.blocked ==>
      if n in dups then s.blocked[n] == DuplicateName else n in g && Explains(g, n, s.blocked[n])
  {
    hide Explains, DependencyFirst, Distinct;
    forall n ensures n in NamesOf(s.ordered) <==> n in g && n !in s.blocked {
      if n in NamesOf(s.ordered) {
        var i :| 0 <= i < |s.ordered| && s.ordered[i].name == n;
      }
    }
    forall n ensures Resolvable(g, n) <==> n in g && n !in s.blocked {
      assert Resolvable(g, n) ==> n in g;
    }
  }

  // ---------------------------------------------------------------- input order

  lemma {:induction false} NamedMultiplicity(candidates: seq<Candidate>, n: Name, c: Candidate)
    ensures multiset(Named(candidates, n))[c] == if c.name == n then multiset(candidates)[c] else 0
  {
    if candidates == [] {
    } else {
      var init, last := candidates[..|candidates| - 1], candidates[|candidates| - 1];
      assert candidates == init + [last];
      NamedMultiplicity(init, n, c);
    }
  }

  lemma SameGroup(a: seq<Candidate>, b: seq<Candidate>, n: Name)
    requires multiset(a) == multiset(b)
    ensures |Named(a, n)| == |Named(b, n)|
    ensures |Named(a, n)| == 1 ==> Named(a, n)[0] == Named(b, n)[0]
  {
    hide Named;
    var x, y := Named(a, n), Named(b, n);
    forall c ensures multiset(x)[c] == multiset(y)[c] {
      NamedMultiplicity(a, n, c);
      NamedMultiplicity(b, n, c);
    }
    assert multiset(x) == multiset(y);
    SameBag(x, y);
  }

  lemma SameBag(x: seq<Candidate>, y: seq<Candidate>)
    requires multiset(x) == multiset(y)
    ensures |x| == |y| && (|x| == 1 ==> x[0] == y[0])
  {
    assert |x| == |multiset(x)| == |multiset(y)| == |y|;
    if |x| == 1 {
      assert x[0] in multiset(y);
    }
  }

  // Shuffling the candidates changes nothing at all about the result.
  lemma InputOrderIrrelevant(a: seq<Candidate>, b: seq<Candidate>)
    requires multiset(a) == multiset(b)
    ensures Searched(a) == Searched(b)
  {
    hide Named, VisitRoots, Start;
    forall c ensures c in a <==> c in b {
      assert c in multiset(a) <==> c in multiset(b);
    }
    assert AllNames(a) == AllNames(b);
    forall n | n in AllNames(a)
      ensures |Named(a, n)| == |Named(b, n)| && (|Named(a, n)| == 1 ==> Named(a, n)[0] == Named(b, n)[0])
    {
      SameGroup(a, b, n);
    }
    assert Available(a) == Available(b);
    assert Duplicates(a) == Duplicates(b);
  }

  // ---------------------------------------------------------------- the order of the result

  ghost predicate ReachedFrom(g: Graph, names: seq<Name>, n: Name) {
    exists r :: r in names && Reaches(g, r, n)
  }

  lemma ReachedBelow(g: Graph, name: Name, n: Name)
    requires name in g && ReachedFrom(g, g[name].dependencies, n)
    ensures Reaches(g, name, n)
  {
    var d :| d in g[name].dependencies && Reaches(g, d, n);
    ReachesThrough(g, name, d, n);
  }

  lemma ReachedFromPart(g: Graph, head: Name, tail: seq<Name>, n: Name)
    requires Reaches(g, head, n) || ReachedFrom(g, tail, n)
    ensures ReachedFrom(g, [head] + tail, n)
  {
    var all := [head] + tail;
    if Reaches(g, head, n) {
      assert head in all;
    } else {
      var r :| r in tail && Reaches(g, r, n);
      assert r in all;
    }
  }

  // A visit appends only plugins that the visited one reaches.
  lemma {:induction false} VisitEmits(g: Graph, s: Search, name: Name)
    requires WellNamed(g)
    ensures var t := Visit(g, s, name).0;
      s.ordered <= t.ordered
      && forall i :: |s.ordered| <= i < |t.ordered| ==> Reaches(g, name, t.ordered[i].name)
    decreases Unvisited(g, s), 0
  {
    hide Reaches, ReachedFrom;
    if name in g && name !in s.gray && name !in s.black {
      ReachesSelf(g, name);
      var open := s.(gray := s.gray + {name});
      UnvisitedShrinks(g, s, name);
      VisitAllEmits(g, open, g[name].dependencies);
      var t := VisitAll(g, open, g[name].dependencies).0;
      forall i | |s.ordered| <= i < |t.ordered| ensures Reaches(g, name, t.ordered[i].name) {
        ReachedBelow(g, name, t.ordered[i].name);
      }
    }
  }

  lemma {:induction false} VisitAllEmits(g: Graph, s: Search, deps: seq<Name>)
    requires WellNamed(g)
    ensures var t := VisitAll(g, s, deps).0;
      s.ordered <= t.ordered
      && forall i :: |s.ordered| <= i < |t.ordered| ==> ReachedFrom(g, deps, t.ordered[i].name)
    decreases Unvisited(g, s), 1, |deps|
  {
    hide Reaches, ReachedFrom;
    if deps != [] {
      VisitEmits(g, s, deps[0]);
      var (mid, err) := Visit(g, s, deps[0]);
      assert Unvisited(g, mid) <= Unvisited(g, s);
      assert deps == [deps[0]] + deps[1..];
      if err.None? {
        VisitAllEmits(g, mid, deps[1..]);
      }
      var t := VisitAll(g, s, deps).0;
      forall i | |s.ordered| <= i < |t.ordered| ensures ReachedFrom(g, deps, t.ordered[i].name) {
        assert i < |mid.ordered| ==> t.ordered[i] == mid.ordered[i];
        ReachedFromPart(g, deps[0], deps[1..], t.ordered[i].name);
      }
    }
  }

  // After the first k roots only plugins that one of them reaches have been appended, and
  // the later roots leave those where they are.
  lemma {:induction false} RootsEmit(g: Graph, s: Search, names: seq<Name>)
    requires WellNamed(g)
    ensures var t := VisitRoots(g, s, names);
      s.ordered <= t.ordered
      && forall i :: |s.ordered| <= i < |t.ordered| ==> ReachedFrom(g, names, t.ordered[i].name)
    decreases |names|
  {
    hide Reaches, ReachedFrom, Visit;
    if names != [] {
      VisitEmits(g, s, names[0]);
      var mid, t := Visit(g, s, names[0]).0, VisitRoots(g, s, names);
      RootsEmit(g, mid, names[1..]);
      assert names == [names[0]] + names[1..];
      forall i | |s.ordered| <= i < |t.ordered| ensures ReachedFrom(g, names, t.ordered[i].name) {
        assert i < |mid.ordered| ==> t.ordered[i] == mid.ordered[i];
        ReachedFromPart(g, names[0], names[1..], t.ordered[i].name);
      }
    }
  }

  lemma {:induction false} RootsJoin(g: Graph, s: Search, a: seq<Name>, b: seq<Name>)
    ensures VisitRoots(g, s, a + b) == VisitRoots(g, VisitRoots(g, s, a), b)
    decreases |a|
  {
    hide Visit;
    if a == [] {
      assert a + b == b;
    } else {
      assert (a + b)[1..] == a[1..] + b;
      RootsJoin(g, Visit(g, s, a[0]).0, a[1..], b);
    }
  }

  // Plugins load in byte order of their names but for dependencies: one comes before another
  // with a smaller name only if some available plugin, named no later than the other, has it
  // in its dependency closure.
  lemma NamesInOrder(candidates: seq<Candidate>, i: nat, j: nat)
    requires i < j < |Searched(candidates).ordered|
    ensures var g, o := Available(candidates), Searched(candidates).ordered;
      Before(o[j].name, o[i].name) ==>
        exists r :: r in g && Before(r, o[j].name) && Reaches(g, r, o[i].name)
  {
    hide Reaches, Visit, VisitRoots, Sound, Available, Start, Sorted, Resolvable;
    var g, dups, o := Available(candidates), Duplicates(candidates), Searched(candidates).ordered;
    var names := Sorted(g.Keys);
    ResolveExact(candidates);
    ResolvableIsAvailable(g, o[j].name);
    assert o[j].name in NamesOf(o) by { assert NamesOf(o)[j] == o[j].name; }
    var k :| 0 <= k < |names| && names[k] == o[j].name;
    var first, later := names[..k + 1], names[k + 1..];
    assert names == first + later;
    RootsJoin(g, Start(dups), first, later);
    var mid := VisitRoots(g, Start(dups), first);
    RootsEmit(g, mid, later);
    VisitedByThen(candidates, first, o[j].name);
    InPlace(mid.ordered, o, j);
    var r := RootOf(g, dups, first, i);
    EarlierRoot(g.Keys, k, r);
  }

  lemma RootOf(g: Graph, dups: set<Name>, first: seq<Name>, i: nat) returns (r: Name)
    requires WellNamed(g) && i < |VisitRoots(g, Start(dups), first).ordered|
    ensures r in first && Reaches(g, r, VisitRoots(g, Start(dups), first).ordered[i].name)
  {
    hide Reaches, VisitRoots;
    RootsEmit(g, Start(dups), first);
    assert ReachedFrom(g, first, VisitRoots(g, Start(dups), first).ordered[i].name);
    r :| r in first && Reaches(g, r, VisitRoots(g, Start(dups), first).ordered[i].name);
  }

  lemma ResolvableIsAvailable(g: Graph, n: Name)
    ensures Resolvable(g, n) ==> n in g
  {
    ResolvableStep(g, n);
  }

  // Once the root of a resolvable name has been visited, it has been appended.
  lemma VisitedByThen(candidates: seq<Candidate>, first: seq<Name>, n: Name)
    requires n in first && Resolvable(Available(candidates), n)
    ensures n in NamesOf(VisitRoots(Available(candidates), Start(Duplicates(candidates)), first).ordered)
  {
    hide Visit, VisitRoots, Available, Start, Explains;
    var g, dups := Available(candidates), Duplicates(candidates);
    NamesSplit(candidates);
    StartSound(g, dups);
    VisitRootsSound(g, dups, Start(dups), first);
    ResolvableIsAvailable(g, n);
  }

  // A name that was appended early stands early.
  lemma InPlace(early: seq<Candidate>, all: seq<Candidate>, j: nat)
    requires early <= all && j < |all| && Distinct(NamesOf(all)) && all[j].name in NamesOf(early)
    ensures j < |early|
  {
    var k :| 0 <= k < |early| && NamesOf(early)[k] == all[j].name;
    assert NamesOf(all)[k] == NamesOf(all)[j];
  }

  lemma EarlierRoot(names: set<Name>, k: nat, r: Name)
    requires k < |Sorted(names)| && r in Sorted(names)[..k + 1]
    ensures r in names && Before(r, Sorted(names)[k])
  {
    var i :| 0 <= i <= k && Sorted(names)[i] == r;
    if i < k {
      SortedAscends(names, i, k);
    } else {
      BeforeTotal(r, r);
    }
  }

  // ---------------------------------------------------------------- the imperative search

  function Coloured(state: map<Name, nat>, colour: nat): set<Name> {
    set n | n in state && state[n] == colour
  }

  lemma ColourOf(state: map<Name, nat>, name: Name)
    requires forall n :: n in state ==> state[n] == 1 || state[n] == 2
    ensures name in Coloured(state, 1) <==> name in state && state[name] == 1
    ensures name in Coloured(state, 2) <==> name in state && state[name] != 1
  {
  }

  lemma TurnsGray(state: map<Name, nat>, name: Name)
    requires name !in state
    ensures Coloured(state[name := 1], 1) == Coloured(state, 1) + {name}
    ensures Coloured(state[name := 1], 2) == Coloured(state, 2)
  {
  }

  lemma TurnsBlack(state: map<Name, nat>, name: Name)
    ensures Coloured(state[name := 2], 1) == Coloured(state, 1) - {name}
    ensures Coloured(state[name := 2], 2) == Coloured(state, 2) + {name}
  {
  }

  // The variables shared by resolve and its recursive closure.
  class Resolver {
    const available: Graph
    var state: map<Name, nat>
    var blocked: map<Name, ResolveError>
    var ordered: seq<Candidate>

    ghost predicate Valid()
      reads this
    {
      forall n :: n in state ==> state[n] == 1 || state[n] == 2
    }

    // The colours as sets.
    ghost function Abstract(): Search
      reads this
    {
      Search(Coloured(state, 2), Coloured(state, 1), blocked, ordered)
    }

    constructor (available: Graph, blocked: map<Name, ResolveError>)
      ensures Valid() && this.available == available
      ensures Abstract() == Search({}, {}, blocked, [])
    {
      this.available := available;
      this.state := map[];
      this.blocked := blocked;
      this.ordered := [];
    }

    method VisitName(name: Name) returns (err: Option<ResolveError>)
      requires Valid()
      modifies this
      ensures Valid()
      ensures (Abstract(), err) == Visit(available, old(Abstract()), name)
      decreases Unvisited(available, Abstract()), 0
    {
      hide Coloured, Unvisited;
      ColourOf(state, name);
      if name in state {
        if state[name] == 1 {
          return Some(CycleAt(name));
        }
        return if name in blocked then Some(blocked[name]) else None;
      }
      if name !in available {
        return Some(Missing(name));
      }
      UnvisitedShrinks(available, Abstract(), name);
      TurnsGray(state, name);
      state := state[name := 1];
      var current := available[name];
      err := VisitDependencies(current.dependencies);
      TurnsBlack(state, name);
      if err.Some? {
        blocked := blocked[name := err.value];
        state := state[name := 2];
      } else {
        state := state[name := 2];
        ordered := ordered + [current];
      }
    }

    method VisitDependencies(dependencies: seq<Name>) returns (err: Option<ResolveError>)
      requires Valid()
      modifies this
      ensures Valid()
      ensures (Abstract(), err) == VisitAll(available, old(Abstract()), dependencies)
      decreases Unvisited(available, Abstract()), 1
    {
      for i := 0 to |dependencies|
        invariant Valid() && Unvisited(available, Abstract()) <= old(Unvisited(available, Abstract()))
        invariant VisitAll(available, old(Abstract()), dependencies)
               == VisitAll(available, Abstract(), dependencies[i..])
      {
        ghost var rest := dependencies[i..];
        assert rest[0] == dependencies[i] && rest[1..] == dependencies[i + 1..];
        err := VisitName(dependencies[i]);
        if err.Some? {
          return;
        }
      }
      err := None;
    }
  }

  // The two result lists of resolve are those of the specified search.
  method Resolve(candidates: seq<Candidate>)
    returns (filtered: seq<Candidate>, blocked: map<Name, ResolveError>)
    ensures filtered == Searched(candidates).ordered && blocked == Searched(candidates).blocked
  {
    hide Named, AllNames, VisitRoots, Filtered, Sorted;
    var grouped := Group(candidates);
    blocked := map n | n in grouped && |grouped[n]| != 1 :: DuplicateName;
    var available := map n | n in grouped && |grouped[n]| == 1 :: grouped[n][0];
    assert available == Available(candidates);
    assert blocked == Start(Duplicates(candidates)).blocked;
    var ordered;
    ordered, blocked := VisitInOrder(available, blocked, Sorted(available.Keys));
    filtered := KeepUnblocked(ordered, blocked);
    ResolveExact(candidates);
  }

  method Group(candidates: seq<Candidate>) returns (grouped: map<Name, seq<Candidate>>)
    ensures grouped.Keys == AllNames(candidates)
    ensures forall n :: n in grouped ==> grouped[n] == Named(candidates, n)
  {
    hide AllNames, Named;
    GroupStart();
    grouped := map[];
    for i := 0 to |candidates|
      invariant Grouped(grouped, candidates[..i])
    {
      var current := candidates[i];
      var before := if current.name in grouped then grouped[current.name] else [];
      GroupStep(grouped, candidates, i);
      grouped := grouped[current.name := before + [current]];
    }
    assert candidates[..|candidates|] == candidates;
  }

  ghost predicate Grouped(grouped: map<Name, seq<Candidate>>, candidates: seq<Candidate>) {
    && grouped.Keys == AllNames(candidates)
    && forall n :: n in grouped ==> grouped[n] == Named(candidates, n)
  }

  lemma GroupStart()
    ensures Grouped(map[], [])
  {
  }

  lemma GroupStep(grouped: map<Name, seq<Candidate>>, candidates: seq<Candidate>, i: nat)
    requires i < |candidates| && Grouped(grouped, candidates[..i])
    ensures var c := candidates[i];
      Grouped(grouped[c.name := (if c.name in grouped then grouped[c.name] else []) + [c]], candidates[..i + 1])
  {
    hide AllNames, Named;
    var c := candidates[i];
    var after := grouped[c.name := (if c.name in grouped then grouped[c.name] else []) + [c]];
    NamedStep(candidates, i, c.name);
    forall n ensures n in after <==> n in AllNames(candidates[..i + 1]) {
      NamedStep(candidates, i, n);
    }
    forall n | n in after ensures after[n] == Named(candidates[..i + 1], n) {
      NamedStep(candidates, i, n);
    }
  }

  lemma NamedStep(candidates: seq<Candidate>, i: nat, n: Name)
    requires i < |candidates|
    ensures n in AllNames(candidates[..i + 1]) <==> n in AllNames(candidates[..i]) || n == candidates[i].name
    ensures Named(candidates[..i + 1], n)
         == Named(candidates[..i], n) + (if candidates[i].name == n then [candidates[i]] else [])
    ensures n !in AllNames(candidates[..i]) ==> Named(candidates[..i], n) == []
  {
    assert candidates[..i + 1][..i] == candidates[..i];
    assert candidates[i] in candidates[..i + 1];
    if Named(candidates[..i], n) != [] {
      assert Named(candidates[..i], n)[0] in candidates[..i];
    }
  }

  method VisitInOrder(available: Graph, dups: map<Name, ResolveError>, names: seq<Name>)
    returns (ordered: seq<Candidate>, blocked: map<Name, ResolveError>)
    ensures var s := VisitRoots(available, Search({}, {}, dups, []), names);
      ordered == s.ordered && blocked == s.blocked
  {
    var resolver := new Resolver(available, dups);
    for i := 0 to |names|
      invariant resolver.Valid() && resolver.available == available
      invariant VisitRoots(available, Search({}, {}, dups, []), names)
             == VisitRoots(available, resolver.Abstract(), names[i..])
    {
      assert names[i..][0] == names[i] && names[i..][1..] == names[i + 1..];
      var err := resolver.VisitName(names[i]);
    }
    ordered, blocked := resolver.ordered, resolver.blocked;
  }

  method KeepUnblocked(ordered: seq<Candidate>, blocked: map<Name, ResolveError>)
    returns (filtered: seq<Candidate>)
    ensures filtered == Filtered(ordered, blocked)
  {
    filtered := [];
    for i := 0 to |ordered|
      invariant filtered == Filtered(ordered[..i], blocked)
    {
      assert ordered[..i + 1][..i] == ordered[..i];
      if ordered[i].name !in blocked {
        filtered := filtered + [ordered[i]];
      }
    }
    assert ordered[..|ordered|] == ordered;
  }
}
