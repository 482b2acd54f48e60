// Normalised text, the naive meaning of "contains a pattern", and the theory of
// longest suffixes that the Aho-Corasick automaton relies on.
module TextFilterSpec {

  // A decoded code point.
  type Rune = nat
  type Word = seq<Rune>

  // The Unicode tables the filter consults.
  datatype Unicode = Unicode(letterOrNumber: Rune -> bool, lower: Rune -> Rune)

  // pkg/textfilter normalises by dropping separators and folding case.
  function Normalize(u: Unicode, value: seq<Rune>): (r: Word)
    ensures |r| <= |value|
  {
    if value == [] then []
    else
      var init, last := value[..|value| - 1], value[|value| - 1];
      Normalize(u, init) + (if u.letterOrNumber(last) then [u.lower(last)] else [])
  }

  // Normalising goes rune by rune: letters and numbers turn into their lower case, the
  // others disappear.
  lemma {:induction false} NormalizeJoins(u: Unicode, a: seq<Rune>, b: seq<Rune>)
    ensures Normalize(u, a + b) == Normalize(u, a) + Normalize(u, b)
    decreases |b|
  {
    if b == [] {
      assert a + b == a;
    } else {
      var init, last := b[..|b| - 1], b[|b| - 1];
      assert a + b == (a + init) + [last];
      assert (a + b)[..|a + b| - 1] == a + init;
      NormalizeJoins(u, a, init);
    }
  }

  lemma NormalizeOne(u: Unicode, r: Rune)
    ensures Normalize(u, [r]) == if u.letterOrNumber(r) then [u.lower(r)] else []
  {
    assert [r][..0] == [];
  }

  function Patterns(u: Unicode, words: seq<seq<Rune>>): set<Word> {
    set i | 0 <= i < |words| && Normalize(u, words[i]) != [] :: Normalize(u, words[i])
  }

  ghost predicate IsSuffix(p: Word, t: Word) {
    |p| <= |t| && t[|t| - |p|..] == p
  }

  ghost predicate OccursAt(p: Word, t: Word, i: nat) {
    i + |p| <= |t| && t[i..i + |p|] == p
  }

  // Naive search: some pattern is a contiguous part of t.
  ghost predicate ContainsAny(pats: set<Word>, t: Word) {
    exists p, i: nat :: p in pats && OccursAt(p, t, i)
  }

  // ---------------------------------------------------------------- tries

  ghost predicate PrefixClosed(keys: set<Word>) {
    && [] in keys
    && forall p: Word, c: Rune {:trigger p + [c]} :: p + [c] in keys ==> p in keys
  }

  // The longest suffix of t that is a path of the trie.
  function LongestSuffix(keys: set<Word>, t: Word): (r: Word)
    ensures |r| <= |t|
  {
    if t == [] || t in keys then t else LongestSuffix(keys, t[1..])
  }

  // The path a failure link of path p must lead to.
  function Fail(keys: set<Word>, p: Word): (r: Word)
    requires p != []
    ensures |r| < |p|
  {
    LongestSuffix(keys, p[1..])
  }

  lemma SuffixOfTail(q: Word, t: Word)
    requires t != []
    ensures IsSuffix(q, t) <==> q == t || IsSuffix(q, t[1..])
  {
    if IsSuffix(q, t) && q != t {
      assert |q| < |t|;
      assert t[1..][|t| - 1 - |q|..] == t[|t| - |q|..];
    }
    if IsSuffix(q, t[1..]) {
      assert t[1..][|t| - 1 - |q|..] == t[|t| - |q|..];
    }
  }

  // LongestSuffix really is the longest suffix in the set: it is one, and every
  // other one is a suffix of it.
  lemma {:induction false} LongestSuffixIsLongest(keys: set<Word>, t: Word, q: Word)
    requires [] in keys
    ensures LongestSuffix(keys, t) in keys
    ensures IsSuffix(LongestSuffix(keys, t), t)
    ensures q in keys && IsSuffix(q, t) ==> IsSuffix(q, LongestSuffix(keys, t))
  {
    if t == [] || t in keys {
    } else {
      LongestSuffixIsLongest(keys, t[1..], q);
      SuffixOfTail(q, t);
      SuffixOfTail(LongestSuffix(keys, t), t);
    }
  }

  // Reading one more rune depends on the text only through its longest suffix.
  lemma {:induction false} ExtendSuffix(keys: set<Word>, t: Word, c: Rune)
    requires PrefixClosed(keys)
    ensures LongestSuffix(keys, t + [c]) == LongestSuffix(keys, LongestSuffix(keys, t) + [c])
  {
    if t == [] || t in keys {
    } else {
      assert (t + [c])[1..] == t[1..] + [c];
      ExtendSuffix(keys, t[1..], c);
    }
  }

  // One failure step: when path q has no child on c, its failure path decides.
  lemma FailureStep(keys: set<Word>, q: Word, c: Rune)
    requires PrefixClosed(keys) && q in keys && q != []
    ensures LongestSuffix(keys, (q + [c])[1..]) == LongestSuffix(keys, Fail(keys, q) + [c])
    ensures q + [c] !in keys ==>
              LongestSuffix(keys, q + [c]) == LongestSuffix(keys, Fail(keys, q) + [c])
  {
    assert (q + [c])[1..] == q[1..] + [c];
    ExtendSuffix(keys, q[1..], c);
  }

  // ---------------------------------------------------------------- outputs

  // What the failure pass leaves as a state's outputs: its own pattern length
  // followed by the outputs inherited along failure links.
  function Outputs(keys: set<Word>, pats: set<Word>, p: Word): (r: seq<nat>)
    decreases |p|
  {
    if p == [] then []
    else (if p in pats then [|p|] else []) + Outputs(keys, pats, Fail(keys, p))
  }

  // The outputs of p are exactly the lengths of the patterns that are suffixes of p.
  lemma {:induction false} OutputsExact(keys: set<Word>, pats: set<Word>, p: Word, n: nat)
    requires [] in keys && pats <= keys && [] !in pats
    ensures n in Outputs(keys, pats, p) <==> n <= |p| && p[|p| - n..] in pats
    decreases |p|
  {
    if p == [] {
    } else if n == |p| {
      assert p[|p| - n..] == p;
      OutputsBounded(keys, pats, Fail(keys, p));
    } else if n < |p| {
      var f, q := Fail(keys, p), p[|p| - n..];
      OutputsExact(keys, pats, f, n);
      LongestSuffixIsLongest(keys, p[1..], q);
      SuffixOfTail(q, p);
      SuffixOfTail(f, p);
      if n <= |f| {
        assert f == p[|p| - |f|..];
        assert f[|f| - n..] == q;
      }
    } else {
      OutputsBounded(keys, pats, p);
    }
  }

  // Outputs are listed longest first, so no length is listed twice.
  lemma {:induction false} OutputsBounded(keys: set<Word>, pats: set<Word>, p: Word)
    requires [] !in pats
    ensures forall i :: 0 <= i < |Outputs(keys, pats, p)| ==>
              0 < Outputs(keys, pats, p)[i] <= |p|
    ensures forall i, j :: 0 <= i < j < |Outputs(keys, pats, p)| ==>
              Outputs(keys, pats, p)[i] > Outputs(keys, pats, p)[j]
    decreases |p|
  {
    if p != [] {
      OutputsBounded(keys, pats, Fail(keys, p));
    }
  }

  // A state for longest suffix q reports something exactly when some pattern
  // ends at the end of the text read so far.
  lemma OutputsSeeWholeText(keys: set<Word>, pats: set<Word>, t: Word, n: nat)
    requires [] in keys && pats <= keys && [] !in pats
    ensures n in Outputs(keys, pats, LongestSuffix(keys, t)) <==>
              n <= |t| && t[|t| - n..] in pats
  {
    var q := LongestSuffix(keys, t);
    OutputsExact(keys, pats, q, n);
    if n <= |t| {
      var p := t[|t| - n..];
      LongestSuffixIsLongest(keys, t, p);
      if n <= |q| {
        assert q == t[|t| - |q|..];
        assert q[|q| - n..] == p;
      }
    } else {
      LongestSuffixIsLongest(keys, t, []);
    }
  }

  // ---------------------------------------------------------------- cost

  // Failure links followed by one transition from path q on rune c.
  function FailureSteps(keys: set<Word>, q: Word, c: Rune): nat
    decreases |q|
  {
    if q == [] || q + [c] in keys then 0 else 1 + FailureSteps(keys, Fail(keys, q), c)
  }

  function TotalFailureSteps(keys: set<Word>, t: Word): nat {
    if t == [] then 0
    else
      var init, last := t[..|t| - 1], t[|t| - 1];
      TotalFailureSteps(keys, init) + FailureSteps(keys, LongestSuffix(keys, init), last)
  }

  // Every failure link shortens the path, every transition lengthens it by at most one.
  lemma {:induction false} StepsPaidByDepth(keys: set<Word>, q: Word, c: Rune)
    requires PrefixClosed(keys) && q in keys
    ensures |LongestSuffix(keys, q + [c])| + FailureSteps(keys, q, c) <= |q| + 1
    decreases |q|
  {
    if q + [c] in keys {
    } else if q == [] {
      assert (q + [c])[1..] == [];
    } else {
      LongestSuffixIsLongest(keys, q[1..], []);
      StepsPaidByDepth(keys, Fail(keys, q), c);
      FailureStep(keys, q, c);
    }
  }

  lemma LongestSuffixFits(keys: set<Word>, t: Word)
    requires PrefixClosed(keys)
    ensures LongestSuffix(keys, t) in keys && |LongestSuffix(keys, t)| <= |t|
  {
    LongestSuffixIsLongest(keys, t, []);
  }

  // Over a whole text the automaton follows at most one failure link per rune read.
  lemma {:induction false} TotalStepsLinear(keys: set<Word>, t: Word)
    requires PrefixClosed(keys)
    ensures TotalFailureSteps(keys, t) + |LongestSuffix(keys, t)| <= |t|
  {
    hide LongestSuffix, FailureSteps, PrefixClosed;
    if t == [] {
      assert |LongestSuffix(keys, t)| <= 0 by { LongestSuffixFits(keys, t); }
    } else {
      var init, last := t[..|t| - 1], t[|t| - 1];
      var q := LongestSuffix(keys, init);
      TotalStepsLinear(keys, init);
      LongestSuffixFits(keys, init);
      StepsPaidByDepth(keys, q, last);
      assert LongestSuffix(keys, t) == LongestSuffix(keys, q + [last]) by {
        ExtendSuffix(keys, init, last);
        assert t == init + [last];
      }
    }
  }
}
