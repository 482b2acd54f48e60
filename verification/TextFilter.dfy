// pkg/textfilter/filter.go: searching and censoring text with a finished automaton.
module TextFilter {
  import opened TextFilterSpec
  import opened TextFilterAutomaton

  // One decoded rune and the number of bytes it takes in the text.
  type Width = n: nat | 1 <= n witness 1
  datatype Glyph = Glyph(rune: Rune, width: Width)

  const STAR := Glyph(42, 1)

  lemma StarIsAscii()
    ensures STAR.rune == '*' as int && STAR.width == 1
  {
  }

  // ---------------------------------------------------------------- normalised prefixes

  // The first k glyphs of text, normalised.
  function Folded(u: Unicode, text: seq<Glyph>, k: nat): (r: Word)
    requires k <= |text|
    ensures |r| <= k
  {
    if k == 0 then []
    else Folded(u, text, k - 1)
         + (if u.letterOrNumber(text[k - 1].rune) then [u.lower(text[k - 1].rune)] else [])
  }

  lemma FoldedEmpty(u: Unicode, text: seq<Glyph>)
    ensures Folded(u, text, 0) == []
  {
  }

  lemma FoldedStep(u: Unicode, text: seq<Glyph>, k: nat)
    requires k < |text|
    ensures Folded(u, text, k + 1) == Folded(u, text, k)
         + (if u.letterOrNumber(text[k].rune) then [u.lower(text[k].rune)] else [])
    ensures !u.letterOrNumber(text[k].rune) ==> Folded(u, text, k + 1) == Folded(u, text, k)
  {
  }

  function Runes(text: seq<Glyph>): seq<Rune> {
    seq(|text|, i requires 0 <= i < |text| => text[i].rune)
  }

  lemma {:induction false} FoldedIsNormalize(u: Unicode, text: seq<Glyph>, k: nat)
    requires k <= |text|
    ensures Folded(u, text, k) == Normalize(u, Runes(text)[..k])
  {
    if k == 0 {
    } else {
      FoldedIsNormalize(u, text, k - 1);
      assert Runes(text)[..k][..k - 1] == Runes(text)[..k - 1];
    }
  }

  lemma {:induction false} FoldedPrefix(u: Unicode, text: seq<Glyph>, k: nat, m: nat)
    requires k <= m <= |text|
    ensures Folded(u, text, k) <= Folded(u, text, m)
  {
    if k == m {
    } else {
      FoldedPrefix(u, text, k, m - 1);
    }
  }

  // Byte offset of glyph k.
  function Offset(text: seq<Glyph>, k: nat): nat
    requires k <= |text|
  {
    if k == 0 then 0 else Offset(text, k - 1) + text[k - 1].width
  }

  lemma {:induction false} OffsetGrows(text: seq<Glyph>, k: nat, m: nat)
    requires k < m <= |text|
    ensures Offset(text, k) < Offset(text, m)
  {
    if k == m - 1 {
    } else {
      OffsetGrows(text, k, m - 1);
    }
  }

  // Byte offsets of the letters and numbers among the first k glyphs.
  ghost function Offsets(u: Unicode, text: seq<Glyph>, k: nat): (r: seq<nat>)
    requires k <= |text|
    ensures |r| == |Folded(u, text, k)|
  {
    if k == 0 then []
    else Offsets(u, text, k - 1)
         + (if u.letterOrNumber(text[k - 1].rune) then [Offset(text, k - 1)] else [])
  }

  lemma {:induction false} OffsetsIncrease(u: Unicode, text: seq<Glyph>, k: nat)
    requires k <= |text|
    ensures forall i, j :: 0 <= i < j < |Offsets(u, text, k)| ==> Offsets(u, text, k)[i] < Offsets(u, text, k)[j]
    ensures forall i :: 0 <= i < |Offsets(u, text, k)| ==> Offsets(u, text, k)[i] < Offset(text, k)
  {
    if k == 0 {
    } else {
      OffsetsIncrease(u, text, k - 1);
      OffsetGrows(text, k - 1, k);
    }
  }

  lemma {:induction false} OffsetsPrefix(u: Unicode, text: seq<Glyph>, k: nat, m: nat)
    requires k <= m <= |text|
    ensures Offsets(u, text, k) <= Offsets(u, text, m)
  {
    if k == m {
    } else {
      OffsetsPrefix(u, text, k, m - 1);
    }
  }

  // ---------------------------------------------------------------- occurrences

  // Normalised position j lies inside some occurrence of a pattern.
  ghost predicate Covered(pats: set<Word>, t: Word, j: nat) {
    exists p, i: nat :: p in pats && OccursAt(p, t, i) && i <= j < i + |p|
  }

  // Reading one more rune adds exactly the occurrences that end at it.
  lemma OccursStep(p: Word, t: Word, c: Rune, i: nat)
    requires p != []
    ensures OccursAt(p, t + [c], i) <==>
              OccursAt(p, t, i) || (i + |p| == |t| + 1 && IsSuffix(p, t + [c]))
  {
    if i + |p| <= |t| {
      assert (t + [c])[i..i + |p|] == t[i..i + |p|];
    }
    if i + |p| == |t| + 1 {
      assert (t + [c])[i..i + |p|] == (t + [c])[i..];
    }
  }

  // Lengths of the patterns that end at the end of t.
  ghost predicate EndsWith(pats: set<Word>, t: Word, n: nat) {
    n <= |t| && t[|t| - n..] in pats
  }

  lemma ContainsStep(pats: set<Word>, t: Word, c: Rune)
    requires [] !in pats
    ensures ContainsAny(pats, t + [c]) <==>
              ContainsAny(pats, t) || exists n: nat :: EndsWith(pats, t + [c], n)
  {
    var t' := t + [c];
    if ContainsAny(pats, t') {
      var p, i: nat :| p in pats && OccursAt(p, t', i);
      OccursStep(p, t, c, i);
      if !OccursAt(p, t, i) {
        assert EndsWith(pats, t', |p|);
      }
    }
    if n: nat :| EndsWith(pats, t', n) {
      OccursStep(t'[|t'| - n..], t, c, |t'| - n);
    }
    if ContainsAny(pats, t) {
      var p, i: nat :| p in pats && OccursAt(p, t, i);
      OccursStep(p, t, c, i);
    }
  }

  lemma CoveredStep(pats: set<Word>, t: Word, c: Rune, j: nat)
    requires [] !in pats
    ensures Covered(pats, t + [c], j) <==>
              Covered(pats, t, j) || exists n: nat :: EndsWith(pats, t + [c], n) && |t| - n < j <= |t|
  {
    var t' := t + [c];
    if Covered(pats, t', j) {
      var p, i: nat :| p in pats && OccursAt(p, t', i) && i <= j < i + |p|;
      OccursStep(p, t, c, i);
      if !OccursAt(p, t, i) {
        assert EndsWith(pats, t', |p|);
      }
    }
    if n: nat :| EndsWith(pats, t', n) && |t| - n < j <= |t| {
      OccursStep(t'[|t'| - n..], t, c, |t'| - n);
    }
    if Covered(pats, t, j) {
      var p, i: nat :| p in pats && OccursAt(p, t, i) && i <= j < i + |p|;
      OccursStep(p, t, c, i);
    }
  }

  lemma ContainsMonotone(pats: set<Word>, t: Word, t': Word)
    requires t <= t' && ContainsAny(pats, t)
    ensures ContainsAny(pats, t')
  {
    var p, i: nat :| p in pats && OccursAt(p, t, i);
    assert t'[i..i + |p|] == t[i..i + |p|];
    assert OccursAt(p, t', i);
  }

  // ---------------------------------------------------------------- searching

  // What the automaton knows after reading t.
  ghost predicate ReadSoFar(m: Matcher, state: nat, t: Word)
    reads m
  {
    state < |m.nodes| == |m.paths| && m.paths[state] == LongestSuffix(m.index.Keys, t)
  }

  // The outputs of the current state are the patterns ending here.
  lemma OutputsHere(m: Matcher, state: nat, t: Word, n: nat)
    requires m.Built() && ReadSoFar(m, state, t)
    ensures n in m.nodes[state].outputs <==> EndsWith(m.pats, t, n)
    ensures EndsWith(m.pats, t, n) ==> 1 <= n <= m.maxPattern
  {
    PrefixesStep(m.pats, []);
    OutputsSeeWholeText(m.index.Keys, m.pats, t, n);
  }

  lemma NothingInEmpty(pats: set<Word>)
    requires [] !in pats
    ensures !ContainsAny(pats, [])
  {
  }

  lemma OnlyRoot(m: Matcher, p: Word)
    requires m.Built() && |m.nodes| == 1 && p in m.index
    ensures p == []
  {
    assert m.index[p] == 0 && m.index[[]] == 0;
  }

  lemma PatternsIndexed(m: Matcher)
    requires m.Built()
    ensures m.pats <= m.index.Keys && [] !in m.pats
  {
    PrefixesStep(m.pats, []);
  }

  // Only an automaton without patterns consists of its root.
  lemma RootAlone(m: Matcher, t: Word)
    requires m.Built() && |m.nodes| == 1
    ensures !ContainsAny(m.pats, t)
  {
    hide m.Built, OccursAt;
    PatternsIndexed(m);
    if p: Word, i: nat :| p in m.pats && OccursAt(p, t, i) {
      OnlyRoot(m, p);
      assert false;
    }
  }

  lemma RootFacts(m: Matcher)
    requires m.Built()
    ensures |m.nodes| == |m.paths| > 0 && PrefixClosed(m.index.Keys) && [] !in m.pats && m.paths[0] == []
  {
    assert m.index[[]] == 0;
  }

  lemma StartState(m: Matcher, t: Word)
    requires m.Built()
    ensures |m.nodes| > 0 && PrefixClosed(m.index.Keys) && [] !in m.pats
    ensures ReadSoFar(m, 0, [])
    ensures TotalFailureSteps(m.index.Keys, []) == 0
    ensures !ContainsAny(m.pats, [])
    ensures |m.nodes| == 1 ==> !ContainsAny(m.pats, t)
  {
    hide m.Built, PrefixClosed, ContainsAny;
    RootFacts(m);
    NothingInEmpty(m.pats);
    if |m.nodes| == 1 {
      RootAlone(m, t);
    }
  }

  // A state with outputs means a pattern ends here.
  lemma Verdict(m: Matcher, state: nat, t: Word, c: Rune)
    requires m.Built() && ReadSoFar(m, state, t + [c])
    ensures ContainsAny(m.pats, t + [c]) <==> ContainsAny(m.pats, t) || m.nodes[state].outputs != []
  {
    ContainsStep(m.pats, t, c);
    if m.nodes[state].outputs != [] {
      OutputsHere(m, state, t + [c], m.nodes[state].outputs[0]);
    }
    if n: nat :| EndsWith(m.pats, t + [c], n) {
      OutputsHere(m, state, t + [c], n);
    }
  }

  // What holds of a prefix of the text bounds the whole text.
  lemma PrefixSettles(m: Matcher, u: Unicode, text: seq<Glyph>, k: nat)
    requires PrefixClosed(m.index.Keys) && k <= |text|
    ensures ContainsAny(m.pats, Folded(u, text, k)) ==> ContainsAny(m.pats, Folded(u, text, |text|))
    ensures TotalFailureSteps(m.index.Keys, Folded(u, text, k)) <= |Folded(u, text, |text|)|
  {
    FoldedPrefix(u, text, k, |text|);
    TotalStepsLinear(m.index.Keys, Folded(u, text, k));
    if ContainsAny(m.pats, Folded(u, text, k)) {
      ContainsMonotone(m.pats, Folded(u, text, k), Folded(u, text, |text|));
    }
  }

  // Reads glyph k, which must be a letter or number.
  method Advance(m: Matcher, u: Unicode, text: seq<Glyph>, k: nat, state: nat) returns (next: nat, ghost steps: nat)
    requires m.Built() && k < |text| && u.letterOrNumber(text[k].rune)
    requires ReadSoFar(m, state, Folded(u, text, k))
    ensures next < |m.nodes| && ReadSoFar(m, next, Folded(u, text, k + 1))
    ensures ContainsAny(m.pats, Folded(u, text, k + 1)) <==>
              ContainsAny(m.pats, Folded(u, text, k)) || m.nodes[next].outputs != []
    ensures TotalFailureSteps(m.index.Keys, Folded(u, text, k + 1))
         == TotalFailureSteps(m.index.Keys, Folded(u, text, k)) + steps
  {
    ghost var t := Folded(u, text, k);
    var value := u.lower(text[k].rune);
    StartState(m, t);
    next, steps := m.Next(state, value);
    assert Folded(u, text, k + 1) == t + [value];
    ExtendSuffix(m.index.Keys, t, value);
    StepsOf(m.index.Keys, t, value);
    hide LongestSuffix;
    Verdict(m, next, t, value);
  }

  lemma StepsOf(keys: set<Word>, t: Word, c: Rune)
    ensures TotalFailureSteps(keys, t + [c])
         == TotalFailureSteps(keys, t) + FailureSteps(keys, LongestSuffix(keys, t), c)
  {
    assert (t + [c])[..|t|] == t;
  }

  // Contains agrees with naive search on normalised text, following at most one failure
  // link per letter or number.
  method Contains(m: Matcher, u: Unicode, text: seq<Glyph>) returns (found: bool, ghost steps: nat)
    requires m.Built()
    ensures found <==> ContainsAny(m.pats, Folded(u, text, |text|))
    ensures steps <= |Folded(u, text, |text|)|
  {
    hide *;
    StartState(m, Folded(u, text, |text|));
    FoldedEmpty(u, text);
    if |m.nodes| <= 1 {
      return false, 0;
    }
    var state: nat := 0;
    steps := 0;
    for k := 0 to |text|
      invariant ReadSoFar(m, state, Folded(u, text, k))
      invariant !ContainsAny(m.pats, Folded(u, text, k))
      invariant steps == TotalFailureSteps(m.index.Keys, Folded(u, text, k))
    {
      if u.letterOrNumber(text[k].rune) {
        ghost var more;
        state, more := Advance(m, u, text, k, state);
        steps := steps + more;
        if m.nodes[state].outputs != [] {
          PrefixSettles(m, u, text, k + 1);
          return true, steps;
        }
      } else {
        FoldedStep(u, text, k);
      }
    }
    PrefixSettles(m, u, text, |text|);
    found := false;
  }

  // ---------------------------------------------------------------- censoring

  // What censoring must produce for glyph k.
  ghost function CensoredGlyph(u: Unicode, pats: set<Word>, text: seq<Glyph>, k: nat): Glyph
    requires k < |text|
  {
    if u.letterOrNumber(text[k].rune)
       && Covered(pats, Folded(u, text, |text|), |Folded(u, text, k)|)
    then STAR else text[k]
  }

  // The ring holds the byte offsets of the last |ring| letters and numbers before index.
  ghost predicate RingHolds(ring: seq<nat>, offsets: seq<nat>, index: nat) {
    && 0 < |ring|
    && index <= |offsets|
    && forall j: nat :: index - |ring| <= j < index ==> ring[j % |ring|] == offsets[j]
  }

  ghost predicate Increasing(offsets: seq<nat>, bound: nat) {
    && (forall i, j :: 0 <= i < j < |offsets| ==> offsets[i] < offsets[j])
    && (forall i :: 0 <= i < |offsets| ==> offsets[i] < bound)
  }

  lemma RingSlot(j: nat, index: nat, size: nat)
    requires index - size < j < index
    ensures j % size != index % size
  {
    var d := index / size - j / size;
    assert index - j == size * d + (index % size - j % size);
    if d >= 1 {
      assert size * d >= size;
    } else {
      assert size * d <= 0;
    }
  }

  lemma RingStored(ring: seq<nat>, ring': seq<nat>, offsets: seq<nat>, index: nat)
    requires RingHolds(ring, offsets, index) && index < |offsets|
    requires ring' == ring[index % |ring| := offsets[index]]
    ensures RingHolds(ring', offsets, index + 1)
  {
    forall j: nat | index + 1 - |ring| <= j < index + 1 ensures ring'[j % |ring|] == offsets[j] {
      if j < index {
        RingSlot(j, index, |ring|);
      }
    }
  }

  // The offset recorded for a letter or number is found at its normalised position.
  lemma OffsetOfLetter(u: Unicode, text: seq<Glyph>, k: nat)
    requires k < |text| && u.letterOrNumber(text[k].rune)
    ensures var j, offsets := |Folded(u, text, k)|, Offsets(u, text, |text|);
      j < |offsets| && offsets[j] == Offset(text, k)
  {
    OffsetsPrefix(u, text, k + 1, |text|);
  }

  // Marks the letters and numbers of one occurrence of the given length ending at index.
  method MarkMatch(masked: array<bool>, ring: array<nat>, length: nat, index: nat, ghost offsets: seq<nat>)
    requires RingHolds(ring[..], offsets, index + 1) && Increasing(offsets, masked.Length)
    requires length <= ring.Length && length <= index + 1
    modifies masked
    ensures forall j :: 0 <= j < |offsets| ==>
      (masked[offsets[j]] <==> old(masked[offsets[j]]) || index - length < j <= index)
  {
    var matched: nat := index + 1 - length;
    while matched <= index
      invariant index + 1 - length <= matched <= index + 1
      invariant forall j :: 0 <= j < |offsets| ==>
        (masked[offsets[j]] <==> old(masked[offsets[j]]) || index - length < j < matched)
    {
      assert ring[..][matched % ring.Length] == offsets[matched];
      masked[ring[matched % ring.Length]] := true;
      matched := matched + 1;
    }
  }

  // Position j lies in one of the first count matches that end at index.
  ghost predicate InMatch(outputs: seq<nat>, count: nat, index: nat, j: nat)
    requires count <= |outputs|
  {
    exists i :: 0 <= i < count && index - outputs[i] < j <= index
  }

  lemma InMatchStep(outputs: seq<nat>, count: nat, index: nat, j: nat)
    requires count < |outputs|
    ensures InMatch(outputs, count + 1, index, j)
      <==> InMatch(outputs, count, index, j) || index - outputs[count] < j <= index
  {
    if index - outputs[count] < j <= index {
      assert InMatch(outputs, count + 1, index, j);
    } else if InMatch(outputs, count, index, j) {
      var i :| 0 <= i < count && index - outputs[i] < j <= index;
      assert InMatch(outputs, count + 1, index, j);
    }
  }

  // Marks every occurrence that ends at index.
  method MarkMatches(outputs: seq<nat>, masked: array<bool>, ring: array<nat>, index: nat, ghost offsets: seq<nat>)
    requires RingHolds(ring[..], offsets, index + 1) && Increasing(offsets, masked.Length)
    requires forall i :: 0 <= i < |outputs| ==> outputs[i] <= ring.Length && outputs[i] <= index + 1
    modifies masked
    ensures forall j :: 0 <= j < |offsets| ==>
      (masked[offsets[j]] <==> old(masked[offsets[j]]) || InMatch(outputs, |outputs|, index, j))
  {
    for n := 0 to |outputs|
      invariant forall j :: 0 <= j < |offsets| ==>
        (masked[offsets[j]] <==> old(masked[offsets[j]]) || InMatch(outputs, n, index, j))
    {
      MarkMatch(masked, ring, outputs[n], index, offsets);
      forall j: nat {
        InMatchStep(outputs, n, index, j);
      }
    }
  }

  // After reading letter k, position j is covered exactly when it was before or lies in a
  // match the new state reports.
  lemma CoveredByState(m: Matcher, u: Unicode, text: seq<Glyph>, k: nat, state: nat, j: nat)
    requires m.Built() && k < |text| && u.letterOrNumber(text[k].rune)
    requires ReadSoFar(m, state, Folded(u, text, k + 1))
    ensures Covered(m.pats, Folded(u, text, k + 1), j) <==>
              Covered(m.pats, Folded(u, text, k), j)
              || InMatch(m.nodes[state].outputs, |m.nodes[state].outputs|, |Folded(u, text, k)|, j)
    ensures forall i :: 0 <= i < |m.nodes[state].outputs| ==>
              m.nodes[state].outputs[i] <= m.maxPattern && m.nodes[state].outputs[i] <= |Folded(u, text, k)| + 1
  {
    var t, t' := Folded(u, text, k), Folded(u, text, k + 1);
    var outputs := m.nodes[state].outputs;
    FoldedStep(u, text, k);
    hide Folded;
    StartState(m, t);
    hide Trie, Prefixes, AllLinked, Lengths;
    CoveredStep(m.pats, t, u.lower(text[k].rune), j);
    forall i | 0 <= i < |outputs|
      ensures EndsWith(m.pats, t', outputs[i]) && outputs[i] <= m.maxPattern
    {
      OutputsHere(m, state, t', outputs[i]);
    }
    if n: nat :| EndsWith(m.pats, t', n) && |t| - n < j <= |t| {
      OutputsHere(m, state, t', n);
      var i :| 0 <= i < |outputs| && outputs[i] == n;
    }
  }

  // Censor: a letter or number becomes a star exactly when it lies in an occurrence of a
  // pattern in the normalised text; everything else is kept, and the flag agrees with Contains.
  method Censor(m: Matcher, u: Unicode, text: seq<Glyph>) returns (out: seq<Glyph>, changed: bool)
    requires m.Built()
    ensures changed <==> ContainsAny(m.pats, Folded(u, text, |text|))
    ensures |out| == |text|
    ensures forall k :: 0 <= k < |text| ==> out[k] == CensoredGlyph(u, m.pats, text, k)
  {
    ghost var steps;
    changed, steps := Contains(m, u, text);
    if !changed {
      Untouched(u, m.pats, text);
      return text, false;
    }
    var masked := Mask(m, u, text);
    out := Render(m, u, text, masked);
  }

  lemma Untouched(u: Unicode, pats: set<Word>, text: seq<Glyph>)
    requires !ContainsAny(pats, Folded(u, text, |text|))
    ensures forall k :: 0 <= k < |text| ==> text[k] == CensoredGlyph(u, pats, text, k)
  {
  }

  // The mask marks exactly the covered letters and numbers.
  ghost predicate MaskFor(masked: seq<bool>, u: Unicode, pats: set<Word>, text: seq<Glyph>, k: nat)
    requires k <= |text|
  {
    var offsets := Offsets(u, text, |text|);
    && Increasing(offsets, |masked|)
    && forall j :: 0 <= j < |offsets| ==>
         (masked[offsets[j]] <==> Covered(pats, Folded(u, text, k), j))
  }

  // First pass: runs the automaton, remembering offsets in a ring of maxPattern slots.
  method Mask(m: Matcher, u: Unicode, text: seq<Glyph>) returns (masked: array<bool>)
    requires m.Built() && ContainsAny(m.pats, Folded(u, text, |text|))
    ensures fresh(masked) && masked.Length == Offset(text, |text|)
    ensures MaskFor(masked[..], u, m.pats, text, |text|)
  {
    hide Trie, Prefixes, AllLinked, Lengths, Folded, Offset, Offsets, MaskFor, ContainsAny;
    var size := TotalWidth(text);
    masked := new bool[size](_ => false);
    MaskStart(m, u, text, masked[..]);
    var ring := new nat[m.maxPattern](_ => 0);
    var state: nat, index: nat, offset: nat := 0, 0, 0;
    for k := 0 to |text|
      invariant ReadSoFar(m, state, Folded(u, text, k)) && m.Built()
      invariant index == |Folded(u, text, k)| && offset == Offset(text, k)
      invariant RingHolds(ring[..], Offsets(u, text, |text|), index)
      invariant masked.Length == Offset(text, |text|)
      invariant MaskFor(masked[..], u, m.pats, text, k)
    {
      if u.letterOrNumber(text[k].rune) {
        state := MaskLetter(m, u, text, k, state, index, offset, masked, ring);
        index := index + 1;
      } else {
        FoldedStep(u, text, k);
        MaskKept(masked[..], u, m.pats, text, k);
      }
      offset := offset + text[k].width;
      assert offset == Offset(text, k + 1) by { OffsetStep(text, k); }
    }
  }

  lemma OffsetStep(text: seq<Glyph>, k: nat)
    requires k < |text|
    ensures Offset(text, k + 1) == Offset(text, k) + text[k].width
  {
  }

  method TotalWidth(text: seq<Glyph>) returns (size: nat)
    ensures size == Offset(text, |text|)
  {
    size := 0;
    for k := 0 to |text|
      invariant size == Offset(text, k)
    {
      size := size + text[k].width;
    }
  }

  lemma MaskKept(masked: seq<bool>, u: Unicode, pats: set<Word>, text: seq<Glyph>, k: nat)
    requires k < |text| && Folded(u, text, k + 1) == Folded(u, text, k)
    requires MaskFor(masked, u, pats, text, k)
    ensures MaskFor(masked, u, pats, text, k + 1)
  {
  }

  lemma MaskStart(m: Matcher, u: Unicode, text: seq<Glyph>, masked: seq<bool>)
    requires m.Built() && ContainsAny(m.pats, Folded(u, text, |text|))
    requires |masked| == Offset(text, |text|) && forall i :: 0 <= i < |masked| ==> !masked[i]
    ensures 0 < m.maxPattern && ReadSoFar(m, 0, Folded(u, text, 0))
    ensures |Folded(u, text, 0)| == Offset(text, 0) == 0
    ensures MaskFor(masked, u, m.pats, text, 0)
  {
    StartState(m, []);
    OffsetsIncrease(u, text, |text|);
  }

  // Reads letter k: records its offset, advances the automaton, marks what ends here.
  method MaskLetter(m: Matcher, u: Unicode, text: seq<Glyph>, k: nat, state: nat, index: nat, offset: nat,
                    masked: array<bool>, ring: array<nat>) returns (next: nat)
    requires m.Built() && k < |text| && u.letterOrNumber(text[k].rune)
    requires ReadSoFar(m, state, Folded(u, text, k))
    requires index == |Folded(u, text, k)| && offset == Offset(text, k)
    requires ring.Length == m.maxPattern && RingHolds(ring[..], Offsets(u, text, |text|), index)
    requires MaskFor(masked[..], u, m.pats, text, k)
    modifies masked, ring
    ensures m.Built() && ReadSoFar(m, next, Folded(u, text, k + 1))
    ensures |Folded(u, text, k + 1)| == index + 1
    ensures RingHolds(ring[..], Offsets(u, text, |text|), index + 1)
    ensures MaskFor(masked[..], u, m.pats, text, k + 1)
  {
    hide Matcher.Built, ReadSoFar, Folded, Offsets, Offset, Covered, InMatch;
    ghost var offsets := Offsets(u, text, |text|);
    OffsetOfLetter(u, text, k);
    RingStored(ring[..], ring[..][index % ring.Length := offset], offsets, index);
    ring[index % ring.Length] := offset;
    ghost var steps;
    next, steps := Advance(m, u, text, k, state);
    forall j: nat ensures Covered(m.pats, Folded(u, text, k + 1), j) <==>
      Covered(m.pats, Folded(u, text, k), j)
      || InMatch(m.nodes[next].outputs, |m.nodes[next].outputs|, index, j)
    {
      CoveredByState(m, u, text, k, next, j);
    }
    CoveredByState(m, u, text, k, next, 0);
    MarkMatches(m.nodes[next].outputs, masked, ring, index, offsets);
    FoldedStep(u, text, k);
  }

  // Second pass: writes a star for every masked letter or number.
  method Render(m: Matcher, u: Unicode, text: seq<Glyph>, masked: array<bool>) returns (out: seq<Glyph>)
    requires masked.Length == Offset(text, |text|) && MaskFor(masked[..], u, m.pats, text, |text|)
    ensures |out| == |text|
    ensures forall k :: 0 <= k < |text| ==> out[k] == CensoredGlyph(u, m.pats, text, k)
  {
    out := [];
    var offset: nat := 0;
    for k := 0 to |text|
      invariant offset == Offset(text, k) && |out| == k
      invariant forall i :: 0 <= i < k ==> out[i] == CensoredGlyph(u, m.pats, text, i)
    {
      OffsetGrows(text, k, |text|);
      MaskTells(u, m.pats, text, k, masked[..]);
      out := out + [if masked[offset] && u.letterOrNumber(text[k].rune) then STAR else text[k]];
      offset := offset + text[k].width;
    }
  }

  lemma MaskTells(u: Unicode, pats: set<Word>, text: seq<Glyph>, k: nat, masked: seq<bool>)
    requires k < |text| && |masked| == Offset(text, |text|) && MaskFor(masked, u, pats, text, |text|)
    ensures Offset(text, k) < |masked|
    ensures u.letterOrNumber(text[k].rune) ==>
      (masked[Offset(text, k)] <==> Covered(pats, Folded(u, text, |text|), |Folded(u, text, k)|))
  {
    OffsetGrows(text, k, |text|);
    if u.letterOrNumber(text[k].rune) {
      OffsetOfLetter(u, text, k);
    }
  }

  // ---------------------------------------------------------------- package functions

  // The one-shot forms compile the words and then search or censor.
  method ContainsWords(u: Unicode, text: seq<Glyph>, words: seq<seq<Rune>>) returns (found: bool)
    ensures found <==> ContainsAny(Patterns(u, words), Normalize(u, Runes(text)))
  {
    var m := new Matcher.Compile(u, words);
    ghost var steps;
    found, steps := Contains(m, u, text);
    FoldedIsNormalize(u, text, |text|);
    assert Runes(text)[..|text|] == Runes(text);
  }

  method CensorWords(u: Unicode, text: seq<Glyph>, words: seq<seq<Rune>>) returns (out: seq<Glyph>, changed: bool)
    ensures changed <==> ContainsAny(Patterns(u, words), Normalize(u, Runes(text)))
    ensures |out| == |text|
    ensures forall k :: 0 <= k < |text| ==> out[k] == CensoredGlyph(u, Patterns(u, words), text, k)
  {
    var m := new Matcher.Compile(u, words);
    out, changed := Censor(m, u, text);
    FoldedIsNormalize(u, text, |text|);
    assert Runes(text)[..|text|] == Runes(text);
  }

  // ---------------------------------------------------------------- what censoring leaves

  // The positions among the first n letters of t that lie in no occurrence.
  ghost function Kept(pats: set<Word>, t: Word, n: nat): (r: seq<nat>)
    requires n <= |t|
    ensures forall i :: 0 <= i < |r| ==> r[i] < n && !Covered(pats, t, r[i])
  {
    if n == 0 then []
    else Kept(pats, t, n - 1) + (if Covered(pats, t, n - 1) then [] else [n - 1])
  }

  function Pick(t: Word, positions: seq<nat>): Word
    requires forall i :: 0 <= i < |positions| ==> positions[i] < |t|
  {
    seq(|positions|, i requires 0 <= i < |positions| => t[positions[i]])
  }

  lemma {:induction false} KeptAscends(pats: set<Word>, t: Word, n: nat)
    requires n <= |t|
    ensures forall i, j :: 0 <= i < j < |Kept(pats, t, n)| ==> Kept(pats, t, n)[i] < Kept(pats, t, n)[j]
  {
    hide Covered;
    if n > 0 {
      KeptAscends(pats, t, n - 1);
    }
  }

  // Censored text normalises to the kept letters.
  lemma {:induction false} CensoredNormalizes(u: Unicode, pats: set<Word>, text: seq<Glyph>, out: seq<Glyph>, k: nat)
    requires !u.letterOrNumber(STAR.rune)
    requires |out| == |text| && forall i :: 0 <= i < |text| ==> out[i] == CensoredGlyph(u, pats, text, i)
    requires k <= |text|
    ensures var t := Folded(u, text, |text|);
            |Folded(u, text, k)| <= |t| && Folded(u, out, k) == Pick(t, Kept(pats, t, |Folded(u, text, k)|))
  {
    hide Covered;
    FoldedPrefix(u, text, k, |text|);
    if k > 0 {
      CensoredNormalizes(u, pats, text, out, k - 1);
      FoldedPrefix(u, text, k - 1, k);
      LetterStep(u, pats, text, out, k - 1);
    }
  }

  lemma LetterStep(u: Unicode, pats: set<Word>, text: seq<Glyph>, out: seq<Glyph>, k: nat)
    requires !u.letterOrNumber(STAR.rune) && k < |text| == |out|
    requires out[k] == CensoredGlyph(u, pats, text, k)
    requires var t := Folded(u, text, |text|);
             Folded(u, text, k + 1) <= t && |Folded(u, text, k)| <= |t|
             && Folded(u, out, k) == Pick(t, Kept(pats, t, |Folded(u, text, k)|))
    ensures var t := Folded(u, text, |text|);
            Folded(u, out, k + 1) == Pick(t, Kept(pats, t, |Folded(u, text, k + 1)|))
  {
    hide Covered;
    var t, n := Folded(u, text, |text|), |Folded(u, text, k)|;
    FoldedStep(u, text, k);
    FoldedStep(u, out, k);
    if u.letterOrNumber(text[k].rune) {
      assert t[n] == Folded(u, text, k + 1)[n] == u.lower(text[k].rune);
    }
  }

  // The letters of t at these positions, from the i-th position on, spell p.
  ghost predicate Spells(t: Word, positions: seq<nat>, i: nat, p: Word) {
    && i + |p| <= |positions|
    && forall k :: 0 <= k < |p| ==> positions[i + k] < |t| && t[positions[i + k]] == p[k]
  }

  // Some pattern is spelled by kept letters that follow each other among the kept ones but
  // not in the text: it straddles something that gets starred.
  ghost predicate Straddles(pats: set<Word>, t: Word, p: Word, i: nat) {
    var kept := Kept(pats, t, |t|);
    p in pats && |p| >= 2 && Spells(t, kept, i, p) && kept[i + |p| - 1] - kept[i] >= |p|
  }

  lemma PickSpells(t: Word, positions: seq<nat>, p: Word, i: nat)
    requires forall j :: 0 <= j < |positions| ==> positions[j] < |t|
    ensures OccursAt(p, Pick(t, positions), i) <==> Spells(t, positions, i, p)
  {
    var picked := Pick(t, positions);
    if OccursAt(p, picked, i) {
      forall k | 0 <= k < |p| ensures t[positions[i + k]] == p[k] {
        assert picked[i..i + |p|][k] == picked[i + k];
      }
    }
    if Spells(t, positions, i, p) {
      assert picked[i..i + |p|] == p;
    }
  }

  // Letters that spell a pattern side by side are an occurrence of it.
  lemma SideBySide(pats: set<Word>, t: Word, positions: seq<nat>, i: nat, p: Word)
    requires p in pats && p != [] && Spells(t, positions, i, p)
    requires forall j :: i <= j < i + |p| ==> positions[j] == positions[i] + (j - i)
    ensures Covered(pats, t, positions[i])
  {
    forall k | 0 <= k < |p| ensures positions[i] + k < |t| && t[positions[i] + k] == p[k] {
      assert positions[i + k] == positions[i] + (i + k - i);
      assert positions[i + k] < |t| && t[positions[i + k]] == p[k];
    }
    var last := |p| - 1;
    assert positions[i] + last < |t| && t[positions[i] + last] == p[last];
    assert t[positions[i]..positions[i] + |p|] == p;
    assert OccursAt(p, t, positions[i]);
  }

  // So kept letters that spell a pattern are never contiguous.
  lemma SpelledApart(pats: set<Word>, t: Word, p: Word, i: nat)
    requires [] !in pats && p in pats && OccursAt(p, Pick(t, Kept(pats, t, |t|)), i)
    ensures Straddles(pats, t, p, i)
  {
    hide Covered, Pick, OccursAt, Kept;
    var kept := Kept(pats, t, |t|);
    KeptAscends(pats, t, |t|);
    PickSpells(t, kept, p, i);
    SpreadAtLeast(kept, i, i + |p| - 1);
    if kept[i + |p| - 1] - kept[i] == |p| - 1 {
      Contiguous(kept, i, |p|);
      SideBySide(pats, t, kept, i, p);
    }
  }

  lemma {:induction false} SpreadAtLeast(s: seq<nat>, i: nat, j: nat)
    requires i <= j < |s| && forall a, b :: 0 <= a < b < |s| ==> s[a] < s[b]
    ensures s[j] - s[i] >= j - i
    decreases j
  {
    if i < j {
      SpreadAtLeast(s, i, j - 1);
      assert s[j - 1] < s[j];
    }
  }

  lemma Contiguous(s: seq<nat>, i: nat, n: nat)
    requires 1 <= n && i + n <= |s| && forall a, b :: 0 <= a < b < |s| ==> s[a] < s[b]
    requires s[i + n - 1] - s[i] == n - 1
    ensures forall j :: i <= j < i + n ==> s[j] == s[i] + (j - i)
  {
    forall j | i <= j < i + n ensures s[j] == s[i] + (j - i) {
      SpreadAtLeast(s, i, j);
      SpreadAtLeast(s, j, i + n - 1);
    }
  }

  lemma StraddlesOccurs(pats: set<Word>, t: Word, p: Word, i: nat)
    requires Straddles(pats, t, p, i)
    ensures OccursAt(p, Pick(t, Kept(pats, t, |t|)), i)
  {
    PickSpells(t, Kept(pats, t, |t|), p, i);
  }

  // Censored text matches again exactly when some pattern straddles a starred part.
  lemma MatchesAgain(u: Unicode, pats: set<Word>, text: seq<Glyph>, out: seq<Glyph>)
    requires [] !in pats && !u.letterOrNumber(STAR.rune)
    requires |out| == |text| && forall i :: 0 <= i < |text| ==> out[i] == CensoredGlyph(u, pats, text, i)
    ensures ContainsAny(pats, Folded(u, out, |out|))
            <==> exists p: Word, i: nat :: Straddles(pats, Folded(u, text, |text|), p, i)
  {
    hide Covered, OccursAt, Straddles, Pick, Kept;
    var t := Folded(u, text, |text|);
    CensoredNormalizes(u, pats, text, out, |text|);
    if p: Word, i: nat :| p in pats && OccursAt(p, Folded(u, out, |out|), i) {
      SpelledApart(pats, t, p, i);
    }
    if p: Word, i: nat :| Straddles(pats, t, p, i) {
      StraddlesOccurs(pats, t, p, i);
      StraddlesPattern(pats, t, p, i);
    }
  }

  lemma StraddlesPattern(pats: set<Word>, t: Word, p: Word, i: nat)
    requires Straddles(pats, t, p, i)
    ensures p in pats
  {
  }

  // Which can happen: censoring ab in aabb leaves a and b on either side.
  lemma CensoredCanMatchAgain(u: Unicode, a: Rune, b: Rune)
    requires u.letterOrNumber(a) && u.letterOrNumber(b) && !u.letterOrNumber(STAR.rune) && a != b
    requires u.lower(a) == a && u.lower(b) == b
    ensures var x, y := Glyph(a, 1), Glyph(b, 1);
      var text, out := [x, x, y, y], [x, STAR, STAR, y];
      && (forall i :: 0 <= i < |text| ==> out[i] == CensoredGlyph(u, {[a, b]}, text, i))
      && ContainsAny({[a, b]}, Folded(u, out, |out|))
  {
    var x, y := Glyph(a, 1), Glyph(b, 1);
    var text, out := [x, x, y, y], [x, STAR, STAR, y];
    AllLetters(u, text);
    var t := [a, a, b, b];
    assert Folded(u, text, 4) == t;
    assert OccursAt([a, b], t, 1);
    forall j: nat ensures Covered({[a, b]}, t, j) <==> 1 <= j <= 2 {
      OnlyOccurrence(a, b, j);
    }
    assert Folded(u, out, 1) == [a] && Folded(u, out, 2) == [a] && Folded(u, out, 3) == [a];
    assert Folded(u, out, 4) == [a, b];
    assert OccursAt([a, b], [a, b], 0);
  }

  lemma AllLetters(u: Unicode, text: seq<Glyph>)
    requires |text| == 4
    requires forall i :: 0 <= i < 4 ==> u.letterOrNumber(text[i].rune) && u.lower(text[i].rune) == text[i].rune
    ensures Folded(u, text, 0) == [] && Folded(u, text, 1) == [text[0].rune]
    ensures Folded(u, text, 2) == [text[0].rune, text[1].rune]
    ensures Folded(u, text, 3) == [text[0].rune, text[1].rune, text[2].rune]
    ensures Folded(u, text, 4) == [text[0].rune, text[1].rune, text[2].rune, text[3].rune]
  {
  }

  lemma OnlyOccurrence(a: Rune, b: Rune, j: nat)
    requires a != b
    ensures Covered({[a, b]}, [a, a, b, b], j) <==> 1 <= j <= 2
  {
    var t, p := [a, a, b, b], [a, b];
    assert OccursAt(p, t, 1);
    forall i: nat | OccursAt(p, t, i) ensures i == 1 {
      assert t[i] == t[i..i + 2][0] == a && t[i + 1] == t[i..i + 2][1] == b;
    }
  }
}
