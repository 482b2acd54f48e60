// pkg/textfilter/automaton.go: construction of the Aho-Corasick automaton and its step.
module TextFilterAutomaton {
  import opened TextFilterSpec

  datatype Node = Node(transitions: map<Rune, nat>, failure: nat, outputs: seq<nat>)

  // ---------------------------------------------------------------- what the fields mean

  // The transitions spell out exactly the paths in index; paths is its inverse.
  ghost predicate Trie(nodes: seq<Node>, paths: seq<Word>, index: map<Word, nat>) {
    && |nodes| == |paths| >= 1
    && PrefixClosed(index.Keys)
    && index[[]] == 0
    && (forall p :: p in index ==> index[p] < |nodes| && paths[index[p]] == p)
    && (forall s :: 0 <= s < |nodes| ==> paths[s] in index && index[paths[s]] == s)
    && (forall s, c :: 0 <= s < |nodes| ==>
          (c in nodes[s].transitions <==> paths[s] + [c] in index))
    && (forall s, c :: 0 <= s < |nodes| && c in nodes[s].transitions ==>
          nodes[s].transitions[c] == index[paths[s] + [c]])
  }

  ghost function Prefixes(pats: set<Word>): set<Word> {
    {[]} + (set p, i | p in pats && 0 <= i <= |p| :: p[..i])
  }

  ghost function PrefixesTo(pattern: Word, i: nat): set<Word>
    requires i <= |pattern|
  {
    set k | 0 <= k <= i :: pattern[..k]
  }

  lemma PrefixesStep(pats: set<Word>, pattern: Word)
    ensures pats <= Prefixes(pats)
    ensures [] in Prefixes(pats)
    ensures Prefixes(pats) + PrefixesTo(pattern, 0) == Prefixes(pats)
    ensures Prefixes(pats + {pattern}) == Prefixes(pats) + PrefixesTo(pattern, |pattern|)
  {
    forall p | p in pats ensures p in Prefixes(pats) {
      assert p[..|p|] == p;
    }
  }

  lemma PrefixesToStep(pattern: Word, i: nat)
    requires i < |pattern|
    ensures pattern[..i + 1] == pattern[..i] + [pattern[i]]
    ensures PrefixesTo(pattern, i + 1) == PrefixesTo(pattern, i) + {pattern[..i] + [pattern[i]]}
    ensures i + 1 == |pattern| ==> pattern[..i] + [pattern[i]] == pattern
  {
  }

  // A state as insertion leaves it.
  ghost predicate Raw(node: Node, path: Word, pats: set<Word>) {
    node.failure == 0 && node.outputs == if path in pats then [|path|] else []
  }

  // A state as the failure pass must leave it.
  ghost predicate Linked(node: Node, path: Word, index: map<Word, nat>, pats: set<Word>) {
    && node.outputs == Outputs(index.Keys, pats, path)
    && (path == [] ==> node.failure == 0)
    && (path != [] ==>
          Fail(index.Keys, path) in index && node.failure == index[Fail(index.Keys, path)])
  }

  ghost predicate AllRaw(nodes: seq<Node>, paths: seq<Word>, pats: set<Word>)
    requires |nodes| == |paths|
  {
    forall s :: 0 <= s < |nodes| ==> Raw(nodes[s], paths[s], pats)
  }

  ghost predicate AllLinked(nodes: seq<Node>, paths: seq<Word>, index: map<Word, nat>, pats: set<Word>)
    requires |nodes| == |paths|
  {
    forall s :: 0 <= s < |nodes| ==> Linked(nodes[s], paths[s], index, pats)
  }

  ghost predicate Lengths(pats: set<Word>, maxPattern: nat) {
    forall p :: p in pats ==> 1 <= |p| <= maxPattern
  }

  lemma LengthsGrow(pats: set<Word>, pattern: Word, max: nat, max': nat)
    requires Lengths(pats, max) && 1 <= |pattern| <= max' && max <= max'
    ensures Lengths(pats + {pattern}, max')
  {
  }

  lemma RawAccept(nodes: seq<Node>, nodes': seq<Node>, paths: seq<Word>, index: map<Word, nat>,
                  pats: set<Word>, state: nat)
    requires Trie(nodes, paths, index) && AllRaw(nodes, paths, pats)
    requires state < |nodes| && paths[state] !in pats
    requires nodes' == nodes[state := nodes[state].(outputs := nodes[state].outputs + [|paths[state]|])]
    ensures AllRaw(nodes', paths, pats + {paths[state]})
  {
    forall s | 0 <= s < |nodes'| ensures Raw(nodes'[s], paths[s], pats + {paths[state]}) {
      if s != state {
        assert index[paths[s]] != index[paths[state]];
      }
    }
  }

  // Rewriting failure or outputs of one state leaves the trie alone.
  lemma TrieKept(nodes: seq<Node>, nodes': seq<Node>, paths: seq<Word>, index: map<Word, nat>)
    requires Trie(nodes, paths, index)
    requires |nodes'| == |nodes|
    requires forall s :: 0 <= s < |nodes| ==> nodes'[s].transitions == nodes[s].transitions
    ensures Trie(nodes', paths, index)
  {
  }

  // Appending a fresh leaf under state on rune c extends the trie by one path.
  lemma TrieGrows(nodes: seq<Node>, paths: seq<Word>, index: map<Word, nat>, state: nat, c: Rune,
                  nodes': seq<Node>, paths': seq<Word>, index': map<Word, nat>)
    requires Trie(nodes, paths, index)
    requires state < |nodes| && c !in nodes[state].transitions
    requires nodes' == nodes[state := nodes[state].(transitions := nodes[state].transitions[c := |nodes|])]
                       + [Node(map[], 0, [])]
    requires paths' == paths + [paths[state] + [c]]
    requires index' == index[paths[state] + [c] := |nodes|]
    ensures Trie(nodes', paths', index')
  {
    var leaf := paths[state] + [c];
    forall s, x | 0 <= s < |nodes'|
      ensures x in nodes'[s].transitions <==> paths'[s] + [x] in index'
      ensures x in nodes'[s].transitions ==> nodes'[s].transitions[x] == index'[paths'[s] + [x]]
    {
      var next := paths'[s] + [x];
      assert next[..|next| - 1] == paths'[s] && next[|next| - 1] == x;
      assert leaf[..|leaf| - 1] == paths[state] && leaf[|leaf| - 1] == c;
      if s == |nodes| {
        assert next !in index;
      } else if next == leaf {
        assert s == state && x == c;
      } else {
        assert s != state || x != c;
      }
    }
    forall p: Word, x: Rune {:trigger p + [x]} | p + [x] in index' ensures p in index' {
      if p + [x] == leaf {
        assert leaf[..|leaf| - 1] == p && leaf[..|leaf| - 1] == paths[state];
      }
    }
  }

  lemma RawGrows(nodes: seq<Node>, paths: seq<Word>, pats: set<Word>, state: nat, c: Rune,
                 nodes': seq<Node>, paths': seq<Word>)
    requires |nodes| == |paths| && AllRaw(nodes, paths, pats)
    requires state < |nodes| && paths[state] + [c] !in pats
    requires nodes' == nodes[state := nodes[state].(transitions := nodes[state].transitions[c := |nodes|])]
                       + [Node(map[], 0, [])]
    requires paths' == paths + [paths[state] + [c]]
    ensures AllRaw(nodes', paths', pats)
  {
  }

  lemma TrieSize(nodes: seq<Node>, paths: seq<Word>, index: map<Word, nat>)
    requires Trie(nodes, paths, index)
    ensures |nodes| == |paths| >= 1
  {
  }

  // ---------------------------------------------------------------- breadth-first order

  // The queue lists distinct states, shallow ones first.
  ghost predicate ByDepth(queue: seq<nat>, paths: seq<Word>) {
    && (forall i :: 0 <= i < |queue| ==> 0 < queue[i] < |paths|)
    && (forall i, j :: 0 <= i < j < |queue| ==> |paths[queue[i]]| <= |paths[queue[j]]|)
    && (forall i, j :: 0 <= i < j < |queue| ==> queue[i] != queue[j])
  }

  ghost predicate NoDeeper(queue: seq<nat>, paths: seq<Word>, depth: nat) {
    forall i :: 0 <= i < |queue| && queue[i] < |paths| ==> |paths[queue[i]]| <= depth
  }

  // Queued are exactly the children of the expanded states, and those of state on the
  // runes already done.
  ghost predicate Frontier(queue: seq<nat>, expanded: set<nat>, state: nat, done: set<Rune>, nodes: seq<Node>) {
    forall up, c {:trigger nodes[up].transitions[c]} :: 0 <= up < |nodes| && c in nodes[up].transitions ==>
      (nodes[up].transitions[c] in queue <==> up in expanded || (up == state && c in done))
  }

  // The invariant of the failure pass: queued states are finished, the others untouched.
  ghost predicate Sweep(queue: seq<nat>, expanded: set<nat>, state: nat, done: set<Rune>,
                        nodes: seq<Node>, paths: seq<Word>, index: map<Word, nat>, pats: set<Word>) {
    && Trie(nodes, paths, index)
    && ByDepth(queue, paths)
    && Frontier(queue, expanded, state, done, nodes)
    && (forall s :: 0 <= s < |nodes| ==>
          if s == 0 || s in queue then Linked(nodes[s], paths[s], index, pats)
          else Raw(nodes[s], paths[s], pats))
  }

  ghost function Expanded(queue: seq<nat>, offset: nat): set<nat>
    requires offset <= |queue|
  {
    {0} + set i | 0 <= i < offset :: queue[i]
  }

  lemma ExpandedStep(queue: seq<nat>, more: seq<nat>, offset: nat, paths: seq<Word>)
    requires ByDepth(queue, paths) && offset < |queue| && queue <= more
    ensures queue[offset] !in Expanded(queue, offset)
    ensures Expanded(more, offset + 1) == Expanded(queue, offset) + {queue[offset]}
  {
  }

  lemma ExpandedNone(queue: seq<nat>)
    ensures Expanded(queue, 0) == {0}
  {
  }

  // All states at most depth runes deep are finished.
  ghost predicate ShallowLinked(nodes: seq<Node>, paths: seq<Word>, index: map<Word, nat>,
                                pats: set<Word>, depth: nat)
    requires |nodes| == |paths|
  {
    forall s :: 0 <= s < |nodes| && |paths[s]| <= depth ==> Linked(nodes[s], paths[s], index, pats)
  }

  // Every state but the root hangs below a state one rune shorter.
  lemma ParentOf(nodes: seq<Node>, paths: seq<Word>, index: map<Word, nat>, s: nat) returns (up: nat, c: Rune)
    requires Trie(nodes, paths, index) && 0 < s < |paths|
    ensures up < |paths| && paths[s] == paths[up] + [c]
    ensures c in nodes[up].transitions && nodes[up].transitions[c] == s
  {
    var p := paths[s];
    assert p in index && index[p] == s && p != [];
    c := p[|p| - 1];
    assert p == p[..|p| - 1] + [c];
    assert p[..|p| - 1] + [c] in index.Keys;
    up := index[p[..|p| - 1]];
  }

  // An edge leads to the state whose path is one rune longer.
  lemma Edge(nodes: seq<Node>, paths: seq<Word>, index: map<Word, nat>, s: nat, c: Rune)
    requires Trie(nodes, paths, index) && s < |nodes| && c in nodes[s].transitions
    ensures var t := nodes[s].transitions[c];
      && 0 < t < |nodes| && paths[t] == paths[s] + [c] && paths[t] in index && index[paths[t]] == t
  {
    assert nodes[s].transitions[c] == index[paths[s] + [c]];
  }

  // An edge determines its source and its rune.
  lemma EdgeUnique(nodes: seq<Node>, paths: seq<Word>, index: map<Word, nat>, s: nat, c: Rune, s': nat, c': Rune)
    requires Trie(nodes, paths, index) && s < |nodes| && s' < |nodes|
    requires c in nodes[s].transitions && c' in nodes[s'].transitions
    requires nodes[s].transitions[c] == nodes[s'].transitions[c']
    ensures s == s' && c == c'
  {
    Edge(nodes, paths, index, s, c);
    Edge(nodes, paths, index, s', c');
    var p := paths[s] + [c];
    assert p == paths[s'] + [c'];
    assert p[..|p| - 1] == paths[s] == paths[s'] && p[|p| - 1] == c == c';
    assert index[paths[s]] == s && index[paths[s']] == s';
  }

  // When a state comes up for expansion, everything at most as deep is already queued.
  lemma {:induction false} ShallowQueued(queue: seq<nat>, offset: nat, nodes: seq<Node>, paths: seq<Word>,
                                         index: map<Word, nat>, s: nat)
    requires Trie(nodes, paths, index) && offset <= |queue| && ByDepth(queue, paths)
    requires Frontier(queue, Expanded(queue, offset), 0, {}, nodes)
    requires 0 < s < |paths|
    requires offset < |queue| ==> |paths[s]| <= |paths[queue[offset]]|
    ensures s in queue
    decreases |paths[s]|
  {
    var up, c := ParentOf(nodes, paths, index, s);
    if up != 0 {
      ShallowQueued(queue, offset, nodes, paths, index, up);
      var k :| 0 <= k < |queue| && queue[k] == up;
      assert k < offset;
    }
  }

  lemma SweptShallow(queue: seq<nat>, offset: nat, nodes: seq<Node>, paths: seq<Word>,
                     index: map<Word, nat>, pats: set<Word>)
    requires offset <= |queue|
    requires Sweep(queue, Expanded(queue, offset), 0, {}, nodes, paths, index, pats)
    ensures offset < |queue| ==> ShallowLinked(nodes, paths, index, pats, |paths[queue[offset]]|)
    ensures offset == |queue| ==> AllLinked(nodes, paths, index, pats)
  {
    forall s | 0 <= s < |nodes| && (offset < |queue| ==> |paths[s]| <= |paths[queue[offset]]|)
      ensures Linked(nodes[s], paths[s], index, pats)
    {
      if s != 0 {
        ShallowQueued(queue, offset, nodes, paths, index, s);
      }
    }
  }

  lemma SweepOrdered(queue: seq<nat>, expanded: set<nat>, nodes: seq<Node>, paths: seq<Word>,
                     index: map<Word, nat>, pats: set<Word>)
    requires Sweep(queue, expanded, 0, {}, nodes, paths, index, pats)
    ensures Trie(nodes, paths, index) && |nodes| == |paths| && ByDepth(queue, paths)
    ensures forall i :: 0 <= i < |queue| ==>
              0 < queue[i] < |nodes| == |paths| && paths[queue[i]] in index && index[paths[queue[i]]] == queue[i]
  {
  }

  lemma DepthAdvances(queue: seq<nat>, paths: seq<Word>, offset: nat)
    requires ByDepth(queue, paths) && offset + 1 < |queue|
    requires NoDeeper(queue, paths, |paths[queue[offset]]| + 1)
    ensures NoDeeper(queue, paths, |paths[queue[offset + 1]]| + 1)
  {
  }

  lemma NoDeeperFirst(queue: seq<nat>, paths: seq<Word>)
    requires NoDeeper(queue, paths, 1) && queue != [] && ByDepth(queue, paths)
    ensures queue[0] < |paths| && NoDeeper(queue, paths, |paths[queue[0]]| + 1)
  {
  }

  // A child not yet done has not been queued.
  lemma ChildWaits(queue: seq<nat>, expanded: set<nat>, state: nat, done: set<Rune>, c: Rune,
                   nodes: seq<Node>, paths: seq<Word>, index: map<Word, nat>, pats: set<Word>)
    requires Sweep(queue, expanded, state, done, nodes, paths, index, pats)
    requires state < |nodes| && state !in expanded
    requires c in nodes[state].transitions && c !in done
    ensures var child := nodes[state].transitions[c];
      && 0 < child < |nodes| && child !in queue && |paths[child]| == |paths[state]| + 1
      && Raw(nodes[child], paths[child], pats)
    ensures Trie(nodes, paths, index) && |nodes| == |paths|
  {
    Edge(nodes, paths, index, state, c);
    hide Trie, Raw, Linked;
  }

  lemma QueueGrows(queue: seq<nat>, child: nat, paths: seq<Word>, depth: nat)
    requires ByDepth(queue, paths) && NoDeeper(queue, paths, depth)
    requires 0 < child < |paths| && |paths[child]| == depth && child !in queue
    ensures ByDepth(queue + [child], paths) && NoDeeper(queue + [child], paths, depth)
  {
  }

  lemma FrontierGrows(queue: seq<nat>, expanded: set<nat>, state: nat, done: set<Rune>, c: Rune,
                      nodes: seq<Node>, paths: seq<Word>, index: map<Word, nat>)
    requires Trie(nodes, paths, index) && Frontier(queue, expanded, state, done, nodes)
    requires state < |nodes| && c in nodes[state].transitions
    ensures Frontier(queue + [nodes[state].transitions[c]], expanded, state, done + {c}, nodes)
  {
    forall up, x {:trigger nodes[up].transitions[x]} | 0 <= up < |nodes| && x in nodes[up].transitions
      ensures nodes[up].transitions[x] in queue + [nodes[state].transitions[c]]
         <==> up in expanded || (up == state && x in done + {c})
    {
      if nodes[up].transitions[x] == nodes[state].transitions[c] {
        EdgeUnique(nodes, paths, index, state, c, up, x);
      }
    }
  }

  // Finishing one child of state and queueing it preserves the sweep.
  lemma SweepStep(queue: seq<nat>, expanded: set<nat>, state: nat, done: set<Rune>, c: Rune,
                  nodes: seq<Node>, nodes': seq<Node>, paths: seq<Word>, index: map<Word, nat>, pats: set<Word>)
    requires Sweep(queue, expanded, state, done, nodes, paths, index, pats)
    requires state < |nodes| && state !in expanded
    requires c in nodes[state].transitions && c !in done
    requires NoDeeper(queue, paths, |paths[state]| + 1)
    requires |nodes'| == |nodes|
    requires var child := nodes[state].transitions[c];
      && child < |nodes|
      && (forall s :: 0 <= s < |nodes| && s != child ==> nodes'[s] == nodes[s])
      && nodes'[child].transitions == nodes[child].transitions
      && Linked(nodes'[child], paths[child], index, pats)
    ensures Sweep(queue + [nodes[state].transitions[c]], expanded, state, done + {c}, nodes', paths, index, pats)
    ensures NoDeeper(queue + [nodes[state].transitions[c]], paths, |paths[state]| + 1)
  {
    var child := nodes[state].transitions[c];
    ChildWaits(queue, expanded, state, done, c, nodes, paths, index, pats);
    TrieKept(nodes, nodes', paths, index);
    QueueGrows(queue, child, paths, |paths[state]| + 1);
    FrontierGrows(queue, expanded, state, done, c, nodes, paths, index);
    hide Trie, Raw, Linked, ByDepth, NoDeeper;
  }

  // Once all children of state are queued, state counts as expanded.
  lemma SweepNext(queue: seq<nat>, expanded: set<nat>, state: nat, next: nat,
                  nodes: seq<Node>, paths: seq<Word>, index: map<Word, nat>, pats: set<Word>)
    requires state < |nodes|
    requires Sweep(queue, expanded, state, nodes[state].transitions.Keys, nodes, paths, index, pats)
    ensures Sweep(queue, expanded + {state}, next, {}, nodes, paths, index, pats)
  {
  }

  lemma SweepAt(queue: seq<nat>, expanded: set<nat>, state: nat, next: nat,
                nodes: seq<Node>, paths: seq<Word>, index: map<Word, nat>, pats: set<Word>)
    requires Sweep(queue, expanded, state, {}, nodes, paths, index, pats)
    ensures Sweep(queue, expanded, next, {}, nodes, paths, index, pats)
  {
  }

  lemma SweepStart(nodes: seq<Node>, paths: seq<Word>, index: map<Word, nat>, pats: set<Word>, maxPattern: nat)
    requires Trie(nodes, paths, index) && AllRaw(nodes, paths, pats) && Lengths(pats, maxPattern)
    ensures Sweep([], {}, 0, {}, nodes, paths, index, pats) && NoDeeper([], paths, 1)
    ensures |nodes| == |paths| > 0 && |paths[0]| == 0
    ensures [] in index && index[[]] == 0 && [] !in pats
  {
    TopLevelLinked(nodes[0], paths[0], index, pats);
  }

  lemma ShallowKept(nodes: seq<Node>, nodes': seq<Node>, paths: seq<Word>, index: map<Word, nat>,
                    pats: set<Word>, depth: nat, child: nat)
    requires |nodes'| == |nodes| == |paths| && ShallowLinked(nodes, paths, index, pats, depth)
    requires child < |nodes| && |paths[child]| > depth
    requires forall s :: 0 <= s < |nodes| && s != child ==> nodes'[s] == nodes[s]
    ensures ShallowLinked(nodes', paths, index, pats, depth)
  {
  }

  // Next to the root, insertion already leaves states finished.
  lemma TopLevelLinked(node: Node, path: Word, index: map<Word, nat>, pats: set<Word>)
    requires Raw(node, path, pats) && |path| <= 1
    requires [] in index && index[[]] == 0 && [] !in pats
    ensures Linked(node, path, index, pats)
  {
    if path != [] {
      assert path[1..] == [];
    }
  }

  // ---------------------------------------------------------------- the matcher

  class Matcher {
    var nodes: seq<Node>
    var maxPattern: nat
    ghost var paths: seq<Word>
    ghost var index: map<Word, nat>
    ghost var pats: set<Word>

    // The trie of the patterns inserted so far.
    ghost predicate Inserting()
      reads this
    {
      && Trie(nodes, paths, index)
      && index.Keys == Prefixes(pats)
      && AllRaw(nodes, paths, pats)
      && Lengths(pats, maxPattern)
    }

    // The finished automaton.
    ghost predicate Built()
      reads this
    {
      && Trie(nodes, paths, index)
      && index.Keys == Prefixes(pats)
      && AllLinked(nodes, paths, index, pats)
      && Lengths(pats, maxPattern)
    }

    method Insert(pattern: Word)
      requires Inserting() && pattern != [] && pattern !in pats
      modifies this
      ensures Inserting() && pats == old(pats) + {pattern}
    {
      PrefixesStep(pats, pattern);
      hide Trie, AllRaw, Lengths, Prefixes, PrefixesTo;
      var state := Spell(pattern);
      Accept(state, pattern);
    }

    // Walks pattern from the root, adding the states it lacks.
    method Spell(pattern: Word) returns (state: nat)
      requires Trie(nodes, paths, index) && AllRaw(nodes, paths, pats) && pats <= index.Keys
      modifies this`nodes, this`paths, this`index
      ensures Trie(nodes, paths, index) && AllRaw(nodes, paths, pats)
      ensures index.Keys == old(index.Keys) + PrefixesTo(pattern, |pattern|)
      ensures state < |nodes| && paths[state] == pattern
    {
      state := 0;
      for i := 0 to |pattern|
        invariant Trie(nodes, paths, index) && AllRaw(nodes, paths, pats)
        invariant index.Keys == old(index.Keys) + PrefixesTo(pattern, i)
        invariant state < |nodes| && paths[state] == pattern[..i]
      {
        PrefixesToStep(pattern, i);
        state := Descend(state, pattern[i]);
      }
    }

    // Follows the edge on value, adding it when it is missing.
    method Descend(state: nat, value: Rune) returns (next: nat)
      requires Trie(nodes, paths, index) && AllRaw(nodes, paths, pats)
      requires pats <= index.Keys && state < |nodes|
      modifies this`nodes, this`paths, this`index
      ensures Trie(nodes, paths, index) && AllRaw(nodes, paths, pats)
      ensures next < |nodes| && paths[next] == old(paths[state]) + [value]
      ensures index.Keys == old(index.Keys) + {old(paths[state]) + [value]}
    {
      if value in nodes[state].transitions {
        next := nodes[state].transitions[value];
        assert next == index[paths[state] + [value]];
      } else {
        next := AddLeaf(state, value, paths[state] + [value]);
      }
    }

    // Marks state as the end of pattern.
    method Accept(state: nat, pattern: Word)
      requires Trie(nodes, paths, index) && AllRaw(nodes, paths, pats)
      requires state < |nodes| && paths[state] == pattern && pattern !in pats
      requires Lengths(pats, maxPattern) && pattern != []
      modifies this`nodes, this`pats, this`maxPattern
      ensures Trie(nodes, paths, index) && AllRaw(nodes, paths, pats)
      ensures pats == old(pats) + {pattern}
      ensures Lengths(pats, maxPattern)
    {
      nodes := nodes[state := nodes[state].(outputs := nodes[state].outputs + [|pattern|])];
      TrieKept(old(nodes), nodes, paths, index);
      RawAccept(old(nodes), nodes, paths, index, pats, state);
      pats := pats + {pattern};
      if |pattern| > maxPattern {
        maxPattern := |pattern|;
      }
      LengthsGrow(old(pats), pattern, old(maxPattern), maxPattern);
    }

    method AddLeaf(state: nat, value: Rune, ghost path: Word) returns (leaf: nat)
      requires Trie(nodes, paths, index) && AllRaw(nodes, paths, pats)
      requires state < |nodes| && value !in nodes[state].transitions
      requires path == paths[state] + [value] && path !in pats
      modifies this`nodes, this`paths, this`index
      ensures Trie(nodes, paths, index) && AllRaw(nodes, paths, pats)
      ensures index.Keys == old(index.Keys) + {path}
      ensures leaf < |nodes| && paths[leaf] == path
    {
      hide Trie, AllRaw;
      TrieSize(nodes, paths, index);
      leaf := |nodes|;
      var from := nodes[state];
      nodes := nodes + [Node(map[], 0, [])];
      nodes := nodes[state := from.(transitions := from.transitions[value := leaf])];
      assert nodes == old(nodes)[state := from.(transitions := from.transitions[value := leaf])] + [Node(map[], 0, [])];
      paths := paths + [path];
      index := index[path := leaf];
      TrieGrows(old(nodes), old(paths), old(index), state, value, nodes, paths, index);
      RawGrows(old(nodes), old(paths), pats, state, value, nodes, paths);
    }

    // Compile: inserts every distinct non-empty pattern, then links the trie.
    constructor Compile(u: Unicode, words: seq<seq<Rune>>)
      ensures Built() && pats == Patterns(u, words)
    {
      nodes := [Node(map[], 0, [])];
      maxPattern := 0;
      paths := [[]];
      index := map[[] := 0];
      pats := {};
      new;
      RootOnly(nodes, paths, index);
      InsertAll(u, words);
      Failures();
    }

    method InsertAll(u: Unicode, words: seq<seq<Rune>>)
      requires Inserting() && pats == {}
      modifies this
      ensures Inserting() && pats == Patterns(u, words)
    {
      hide Inserting, Patterns;
      PatternsStep(u, words);
      var seen: set<Word> := {};
      for i := 0 to |words|
        invariant Inserting()
        invariant seen == pats == Patterns(u, words[..i])
      {
        var pattern := Normalize(u, words[i]);
        if pattern != [] && pattern !in seen {
          seen := seen + {pattern};
          Insert(pattern);
        }
      }
      assert words[..|words|] == words;
    }

    // Breadth-first pass over the trie; the order of a state's children is arbitrary.
    method Failures()
      requires Inserting()
      modifies this`nodes
      ensures Built()
    {
      hide Prefixes, Sweep, Trie, ByDepth, NoDeeper, Expanded, ShallowLinked, AllLinked, AllRaw, Lengths;
      var queue: seq<nat> := ExpandRoot();
      var offset := 0;
      ExpandedNone(queue);
      if queue != [] {
        SweepOrdered(queue, {0}, nodes, paths, index, pats);
        NoDeeperFirst(queue, paths);
      }
      while offset < |queue|
        invariant offset <= |queue| && |nodes| == |old(nodes)|
        invariant Sweep(queue, Expanded(queue, offset), 0, {}, nodes, paths, index, pats)
        invariant offset < |queue| ==> queue[offset] < |paths| && NoDeeper(queue, paths, |paths[queue[offset]]| + 1)
        decreases index.Values - Expanded(queue, offset)
      {
        SweepOrdered(queue, Expanded(queue, offset), nodes, paths, index, pats);
        SweptShallow(queue, offset, nodes, paths, index, pats);
        ExpandedStep(queue, queue, offset, paths);
        assert index[paths[queue[offset]]] == queue[offset];
        var more: seq<nat> := Expand(queue, Expanded(queue, offset), queue[offset]);
        ExpandedStep(queue, more, offset, paths);
        SweepOrdered(more, Expanded(more, offset + 1), nodes, paths, index, pats);
        if offset + 1 < |more| {
          DepthAdvances(more, paths, offset);
        }
        queue, offset := more, offset + 1;
      }
      SweepOrdered(queue, Expanded(queue, offset), nodes, paths, index, pats);
      SweptShallow(queue, offset, nodes, paths, index, pats);
    }

    method ExpandRoot() returns (queue: seq<nat>)
      requires Inserting()
      ensures Sweep(queue, {0}, 0, {}, nodes, paths, index, pats)
      ensures NoDeeper(queue, paths, 1)
    {
      hide Trie, Sweep, NoDeeper, Raw, Linked, Prefixes, Lengths, AllRaw;
      SweepStart(nodes, paths, index, pats, maxPattern);
      queue := [];
      var edges := nodes[0].transitions;
      var todo: set<Rune> := edges.Keys;
      assert edges.Keys - todo == {};
      while todo != {}
        invariant todo <= edges.Keys
        invariant Sweep(queue, {}, 0, edges.Keys - todo, nodes, paths, index, pats)
        invariant NoDeeper(queue, paths, 1)
        decreases todo
      {
        var value: Rune :| value in todo;
        ghost var done := edges.Keys - todo;
        ChildWaits(queue, {}, 0, done, value, nodes, paths, index, pats);
        TopLevelLinked(nodes[edges[value]], paths[edges[value]], index, pats);
        SweepStep(queue, {}, 0, done, value, nodes, nodes, paths, index, pats);
        queue := queue + [edges[value]];
        todo := todo - {value};
        assert edges.Keys - todo == done + {value};
      }
      assert edges.Keys - todo == edges.Keys;
      SweepNext(queue, {}, 0, 0, nodes, paths, index, pats);
      assert {0} == {} + {0};
    }

    // Links and queues all children of one state.
    method Expand(queue: seq<nat>, ghost expanded: set<nat>, state: nat) returns (queue': seq<nat>)
      requires Sweep(queue, expanded, 0, {}, nodes, paths, index, pats)
      requires 0 < state < |nodes| == |paths| && state !in expanded
      requires ShallowLinked(nodes, paths, index, pats, |paths[state]|)
      requires NoDeeper(queue, paths, |paths[state]| + 1)
      modifies this`nodes
      ensures |nodes| == |old(nodes)| && queue <= queue'
      ensures Sweep(queue', expanded + {state}, 0, {}, nodes, paths, index, pats)
      ensures NoDeeper(queue', paths, |paths[state]| + 1)
    {
      hide Sweep, Trie, NoDeeper, ShallowLinked, Raw, Linked;
      queue' := queue;
      var edges := nodes[state].transitions;
      var todo := edges.Keys;
      SweepAt(queue, expanded, 0, state, nodes, paths, index, pats);
      assert edges.Keys - todo == {};
      while todo != {}
        invariant todo <= edges.Keys && queue <= queue'
        invariant |nodes| == |old(nodes)| && nodes[state].transitions == edges
        invariant Sweep(queue', expanded, state, edges.Keys - todo, nodes, paths, index, pats)
        invariant ShallowLinked(nodes, paths, index, pats, |paths[state]|)
        invariant NoDeeper(queue', paths, |paths[state]| + 1)
        decreases todo
      {
        var value: Rune :| value in todo;
        ghost var done, before := edges.Keys - todo, nodes;
        ChildWaits(queue', expanded, state, done, value, nodes, paths, index, pats);
        Link(state, value, edges[value]);
        SweepStep(queue', expanded, state, done, value, before, nodes, paths, index, pats);
        ShallowKept(before, nodes, paths, index, pats, |paths[state]|, edges[value]);
        queue' := queue' + [edges[value]];
        todo := todo - {value};
        assert edges.Keys - todo == done + {value};
      }
      assert edges.Keys - todo == edges.Keys;
      SweepNext(queue', expanded, state, 0, nodes, paths, index, pats);
    }

    // The failure walk: the first state on the failure chain of state that has an edge
    // on value, or the root.
    method Fallback(state: nat, value: Rune) returns (failure: nat)
      requires Trie(nodes, paths, index) && 0 < state < |nodes|
      requires ShallowLinked(nodes, paths, index, pats, |paths[state]|)
      ensures failure < |nodes| && |paths[failure]| < |paths[state]|
      ensures failure == 0 || value in nodes[failure].transitions
      ensures LongestSuffix(index.Keys, paths[failure] + [value])
           == LongestSuffix(index.Keys, (paths[state] + [value])[1..])
    {
      LinkFollowed(nodes, paths, index, pats, state, value);
      failure := nodes[state].failure;
      while failure != 0
        invariant failure < |nodes| && |paths[failure]| < |paths[state]|
        invariant LongestSuffix(index.Keys, paths[failure] + [value])
               == LongestSuffix(index.Keys, (paths[state] + [value])[1..])
        decreases |paths[failure]|
      {
        if value in nodes[failure].transitions {
          break;
        }
        LinkFollowed(nodes, paths, index, pats, failure, value);
        failure := nodes[failure].failure;
      }
    }

    // One child of the state under expansion gets its failure link and inherits outputs.
    method Link(state: nat, value: Rune, child: nat)
      requires Trie(nodes, paths, index) && 0 < state < |nodes|
      requires ShallowLinked(nodes, paths, index, pats, |paths[state]|)
      requires value in nodes[state].transitions && child == nodes[state].transitions[value]
      requires child < |nodes|
      requires Raw(nodes[child], paths[child], pats)
      modifies this`nodes
      ensures |nodes| == |old(nodes)|
      ensures forall s :: 0 <= s < |nodes| && s != child ==> nodes[s] == old(nodes)[s]
      ensures nodes[child].transitions == old(nodes)[child].transitions
      ensures Linked(nodes[child], paths[child], index, pats)
    {
      var failure := Fallback(state, value);
      EdgeMeaning(nodes, paths, index, state, value);
      EdgeMeaning(nodes, paths, index, failure, value);
      hide Trie, LongestSuffix;
      if value in nodes[failure].transitions {
        var target := nodes[failure].transitions[value];
        // The source also tests target != child, which always holds.
        assert target != child;
        nodes := nodes[child := nodes[child].(failure := target)];
      }
      var inherited := nodes[nodes[child].failure].outputs;
      nodes := nodes[child := nodes[child].(outputs := nodes[child].outputs + inherited)];
    }

    // One step of the finished automaton; steps counts the failure links it follows.
    method Next(state: nat, value: Rune) returns (next: nat, ghost steps: nat)
      requires Built() && state < |nodes|
      ensures next < |nodes|
      ensures paths[next] == LongestSuffix(index.Keys, paths[state] + [value])
      ensures steps == FailureSteps(index.Keys, paths[state], value)
    {
      assert |nodes| == |paths| && 0 < |nodes|;
      hide Trie, Prefixes, Lengths, Linked, LongestSuffix, FailureSteps;
      var current: nat := state;
      steps := 0;
      while current != 0
        invariant current < |nodes| == |paths|
        invariant LongestSuffix(index.Keys, paths[current] + [value])
               == LongestSuffix(index.Keys, paths[state] + [value])
        invariant steps + FailureSteps(index.Keys, paths[current], value)
               == FailureSteps(index.Keys, paths[state], value)
        decreases |paths[current]|
      {
        EdgeMeaning(nodes, paths, index, current, value);
        if value in nodes[current].transitions {
          next := nodes[current].transitions[value];
          return;
        }
        LinkFollowed(nodes, paths, index, pats, current, value);
        current := nodes[current].failure;
        steps := steps + 1;
      }
      EdgeMeaning(nodes, paths, index, 0, value);
      if value in nodes[0].transitions {
        next := nodes[0].transitions[value];
      } else {
        next := 0;
      }
    }
  }

  // Following a finished failure link preserves the answer for the next rune.
  lemma LinkFollowed(nodes: seq<Node>, paths: seq<Word>, index: map<Word, nat>, pats: set<Word>, s: nat, c: Rune)
    requires Trie(nodes, paths, index) && 0 < s < |nodes|
    requires Linked(nodes[s], paths[s], index, pats)
    ensures nodes[s].failure < |nodes| && paths[s] != []
    ensures paths[nodes[s].failure] == Fail(index.Keys, paths[s])
    ensures LongestSuffix(index.Keys, (paths[s] + [c])[1..])
         == LongestSuffix(index.Keys, paths[nodes[s].failure] + [c])
    ensures c !in nodes[s].transitions ==>
      && LongestSuffix(index.Keys, paths[s] + [c]) == LongestSuffix(index.Keys, paths[nodes[s].failure] + [c])
      && FailureSteps(index.Keys, paths[s], c) == 1 + FailureSteps(index.Keys, paths[nodes[s].failure], c)
  {
    assert paths[s] != [];
    FailureStep(index.Keys, paths[s], c);
  }

  // What an edge, or its absence at the root, says about longest suffixes.
  lemma EdgeMeaning(nodes: seq<Node>, paths: seq<Word>, index: map<Word, nat>, s: nat, c: Rune)
    requires Trie(nodes, paths, index) && s < |nodes|
    ensures c in nodes[s].transitions ==>
              (var t := nodes[s].transitions[c];
               && t < |nodes| && paths[t] == paths[s] + [c]
               && LongestSuffix(index.Keys, paths[s] + [c]) == paths[t]
               && paths[t] in index && index[paths[t]] == t)
    ensures c !in nodes[s].transitions && s == 0 ==> LongestSuffix(index.Keys, paths[s] + [c]) == paths[0]
    ensures c in nodes[s].transitions || s == 0 ==> FailureSteps(index.Keys, paths[s], c) == 0
  {
    hide LongestSuffix, FailureSteps;
    if c in nodes[s].transitions {
      Edge(nodes, paths, index, s, c);
      ReadInside(index.Keys, paths[s], c);
    } else if s == 0 {
      RootPath(nodes, paths, index);
      NoEdge(nodes, paths, index, s, c);
      ReadNothing(index.Keys, c);
    }
    if s == 0 {
      RootPath(nodes, paths, index);
      RootSteps(index.Keys, c);
    }
  }

  lemma RootPath(nodes: seq<Node>, paths: seq<Word>, index: map<Word, nat>)
    requires Trie(nodes, paths, index)
    ensures |paths| > 0 && paths[0] == [] && [] in index
  {
    assert index[[]] == 0;
  }

  lemma NoEdge(nodes: seq<Node>, paths: seq<Word>, index: map<Word, nat>, s: nat, c: Rune)
    requires Trie(nodes, paths, index) && s < |nodes| && c !in nodes[s].transitions
    ensures paths[s] + [c] !in index
  {
  }

  lemma ReadInside(keys: set<Word>, q: Word, c: Rune)
    requires q + [c] in keys
    ensures LongestSuffix(keys, q + [c]) == q + [c] && FailureSteps(keys, q, c) == 0
  {
  }

  lemma ReadNothing(keys: set<Word>, c: Rune)
    requires [] + [c] !in keys
    ensures LongestSuffix(keys, [] + [c]) == []
  {
    assert ([] + [c])[1..] == [];
  }

  lemma RootSteps(keys: set<Word>, c: Rune)
    ensures FailureSteps(keys, [], c) == 0
  {
  }

  lemma RootOnly(nodes: seq<Node>, paths: seq<Word>, index: map<Word, nat>)
    requires nodes == [Node(map[], 0, [])] && paths == [[]] && index == map[[] := 0]
    ensures Trie(nodes, paths, index) && AllRaw(nodes, paths, {}) && Lengths({}, 0)
    ensures index.Keys == Prefixes({})
  {
  }

  lemma PatternsStep(u: Unicode, words: seq<seq<Rune>>)
    ensures Patterns(u, []) == {}
    ensures forall i :: 0 <= i < |words| ==>
      Patterns(u, words[..i + 1]) == Patterns(u, words[..i])
        + (if Normalize(u, words[i]) == [] then {} else {Normalize(u, words[i])})
  {
    forall i | 0 <= i < |words|
      ensures Patterns(u, words[..i + 1]) == Patterns(u, words[..i])
        + (if Normalize(u, words[i]) == [] then {} else {Normalize(u, words[i])})
    {
      assert forall k :: 0 <= k <= i ==> words[..i + 1][k] == words[k];
      assert forall k :: 0 <= k < i ==> words[..i][k] == words[k];
    }
  }

  // What Linked promises, said without the construction. A failure link leads to the
  // longest proper suffix that is itself a path.
  lemma FailureMeaning(nodes: seq<Node>, paths: seq<Word>, index: map<Word, nat>, pats: set<Word>, s: nat, q: Word)
    requires Trie(nodes, paths, index) && 0 < s < |nodes| && Linked(nodes[s], paths[s], index, pats)
    ensures nodes[s].failure < |nodes|
    ensures var suffix := paths[nodes[s].failure];
      && |suffix| < |paths[s]| && IsSuffix(suffix, paths[s])
      && (q in index && IsSuffix(q, paths[s]) && q != paths[s] ==> IsSuffix(q, suffix))
  {
    var p := paths[s];
    LinkFollowed(nodes, paths, index, pats, s, 0);
    LongestSuffixIsLongest(index.Keys, p[1..], q);
    hide Trie, Linked, Outputs, LongestSuffix;
    SuffixOfTail(q, p);
    SuffixOfTail(Fail(index.Keys, p), p);
  }

  // The outputs are the lengths of the patterns ending here, each once.
  lemma OutputsMeaning(node: Node, path: Word, index: map<Word, nat>, pats: set<Word>, n: nat)
    requires Linked(node, path, index, pats)
    requires [] in index && pats <= index.Keys && [] !in pats
    ensures n in node.outputs <==> n <= |path| && path[|path| - n..] in pats
    ensures forall i, j :: 0 <= i < j < |node.outputs| ==> node.outputs[i] != node.outputs[j]
  {
    OutputsExact(index.Keys, pats, path, n);
    OutputsBounded(index.Keys, pats, path);
  }
}
