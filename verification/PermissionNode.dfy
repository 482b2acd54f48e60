// internal/permission/node.go: dotted permission nodes, wildcards and specificity.
module PermissionNode {

  type Node = string

  const WILDCARD := "*"

  // ---------------------------------------------------------------- segments

  // The dot-separated segments of a node; there is always at least one.
  function Split(s: string): (r: seq<string>)
    ensures r != []
    ensures forall i :: 0 <= i < |r| ==> '.' !in r[i]
  {
    if s == "" then [""]
    else
      var rest := Split(s[1..]);
      if s[0] == '.' then [""] + rest else [[s[0]] + rest[0]] + rest[1..]
  }

  function Join(segments: seq<string>): string
    requires segments != []
  {
    if |segments| == 1 then segments[0] else segments[0] + "." + Join(segments[1..])
  }

  lemma {:induction false} JoinSplit(s: string)
    ensures Join(Split(s)) == s
  {
    if s == "" {
    } else {
      JoinSplit(s[1..]);
      var rest := Split(s[1..]);
      if s[0] == '.' {
        assert ([""] + rest)[1..] == rest;
      } else {
        assert ([[s[0]] + rest[0]] + rest[1..])[1..] == rest[1..];
      }
      assert s == [s[0]] + s[1..];
    }
  }

  lemma {:induction false} SplitPlain(s: string)
    requires '.' !in s
    ensures Split(s) == [s]
  {
    if s == "" {
    } else {
      SplitPlain(s[1..]);
      assert s == [s[0]] + s[1..];
    }
  }

  lemma SplitDot(s: string)
    ensures Split("." + s) == [""] + Split(s)
  {
    assert ("." + s)[1..] == s;
  }

  lemma SplitChar(c: char, s: string)
    requires c != '.'
    ensures Split([c] + s) == [[c] + Split(s)[0]] + Split(s)[1..]
  {
    assert ([c] + s)[1..] == s;
  }

  lemma {:induction false} SplitConcat(a: string, b: string)
    ensures Split(a + "." + b) == Split(a) + Split(b)
  {
    if a == "" {
      assert a + "." + b == "." + b;
      SplitDot(b);
    } else {
      SplitConcat(a[1..], b);
      SplitHead(a[0], a[1..], b);
      assert [a[0]] + a[1..] == a;
    }
  }

  lemma SplitHead(c: char, a: string, b: string)
    requires Split(a + "." + b) == Split(a) + Split(b)
    ensures Split([c] + a + "." + b) == Split([c] + a) + Split(b)
  {
    hide Split;
    var t, x, y := a + "." + b, Split(a), Split(b);
    assert [c] + a + "." + b == [c] + t;
    if c == '.' {
      SplitDot(t);
      SplitDot(a);
      assert [""] + (x + y) == ([""] + x) + y;
    } else {
      SplitChar(c, t);
      SplitChar(c, a);
      assert [[c] + (x + y)[0]] + (x + y)[1..] == ([[c] + x[0]] + x[1..]) + y;
    }
  }

  lemma {:induction false} JoinConcat(a: seq<string>, b: seq<string>)
    requires a != [] && b != []
    ensures Join(a + b) == Join(a) + "." + Join(b)
  {
    if |a| == 1 {
      assert (a + b)[1..] == b;
    } else {
      JoinConcat(a[1..], b);
      assert (a + b)[1..] == a[1..] + b;
      assert Join(a) == a[0] + "." + Join(a[1..]);
      var x, y := a[0] + ".", Join(a[1..]);
      assert Join(a + b) == x + (y + "." + Join(b));
    }
  }

  function Last(segments: seq<string>): string
    requires segments != []
  {
    segments[|segments| - 1]
  }

  function Init(segments: seq<string>): seq<string>
    requires segments != []
  {
    segments[..|segments| - 1]
  }

  // ---------------------------------------------------------------- validity

  predicate SegmentChar(c: char) {
    'a' <= c <= 'z' || '0' <= c <= '9' || c == '_' || c == '-'
  }

  // By their codes: a to z, 0 to 9, the underscore and the dash.
  lemma SegmentChars(c: char)
    ensures SegmentChar(c) <==> var code := c as int; 96 < code < 123 || 47 < code < 58 || code == 95 || code == 45
  {
  }

  // A segment is a non-empty plain word; only the last may be the wildcard.
  predicate SegmentOk(segment: string, last: bool) {
    segment != "" && (if segment == WILDCARD then last else forall c :: c in segment ==> SegmentChar(c))
  }

  lemma SegmentExactly(segment: string, last: bool)
    ensures SegmentOk(segment, last) <==>
      (segment == "*" && last)
      || (|segment| > 0 && forall i :: 0 <= i < |segment| ==> SegmentChar(segment[i]))
  {
    if segment == WILDCARD {
      assert !SegmentChar(segment[0]);
    }
  }

  predicate AllSegmentsOk(segments: seq<string>) {
    forall i :: 0 <= i < |segments| ==> SegmentOk(segments[i], i == |segments| - 1)
  }

  predicate ValidNode(node: Node) {
    AllSegmentsOk(Split(node))
  }

  predicate Concrete(node: Node) {
    ValidNode(node) && '*' !in node
  }

  method ValidSegment(value: string, start: nat, end: nat, last: bool) returns (ok: bool)
    requires start <= end <= |value|
    ensures ok <==> SegmentOk(value[start..end], last)
  {
    if start == end {
      return false;
    }
    if end - start == 1 && value[start] == '*' {
      assert value[start..end] == "*";
      return last;
    }
    for i := start to end
      invariant forall j :: start <= j < i ==> SegmentChar(value[j])
    {
      if !SegmentChar(value[i]) {
        assert value[i] in value[start..end];
        return false;
      }
    }
    assert value[start] in value[start..end];
    ok := true;
  }

  lemma SplitAt(s: string, i: nat)
    requires i < |s| && s[i] == '.' && '.' !in s[..i]
    ensures Split(s) == [s[..i]] + Split(s[i + 1..])
  {
    assert s == s[..i] + "." + s[i + 1..];
    SplitConcat(s[..i], s[i + 1..]);
    SplitPlain(s[..i]);
  }

  lemma OkCons(head: string, tail: seq<string>)
    requires tail != []
    ensures AllSegmentsOk([head] + tail) <==> SegmentOk(head, false) && AllSegmentsOk(tail)
  {
    var all := [head] + tail;
    if AllSegmentsOk(all) {
      assert SegmentOk(all[0], false);
      forall i | 0 <= i < |tail| ensures SegmentOk(tail[i], i == |tail| - 1) {
        assert SegmentOk(all[i + 1], i + 1 == |all| - 1);
      }
    }
    if SegmentOk(head, false) && AllSegmentsOk(tail) {
      forall i | 0 <= i < |all| ensures SegmentOk(all[i], i == |all| - 1) {
        if i > 0 {
          assert SegmentOk(tail[i - 1], i - 1 == |tail| - 1);
        }
      }
    }
  }

  lemma OkSingle(segment: string)
    ensures AllSegmentsOk([segment]) <==> SegmentOk(segment, true)
  {
    assert [segment][0] == segment;
  }

  // The shortcuts taken before the scan agree with it.
  lemma Shortcuts(s: string)
    ensures s == WILDCARD ==> ValidNode(s)
    ensures s == "" || s[0] == '.' || s[|s| - 1] == '.' ==> !ValidNode(s)
  {
    if s == "" {
      assert !SegmentOk(Split(s)[0], true);
    } else if s == WILDCARD {
      SplitPlain(s);
    } else {
      if s[0] == '.' {
        SplitAt(s, 0);
        assert !SegmentOk(Split(s)[0], false);
      }
      if s[|s| - 1] == '.' {
        assert s == s[..|s| - 1] + "." + "";
        SplitConcat(s[..|s| - 1], "");
        assert !SegmentOk(Last(Split(s)), true);
      }
    }
  }

  // What finding the end of one segment tells about the rest of the node.
  lemma ScanStep(value: Node, start: nat, index: nat)
    requires start <= index <= |value| && '.' !in value[start..index]
    requires index < |value| ==> value[index] == '.'
    ensures AllSegmentsOk(Split(value[start..])) <==>
      SegmentOk(value[start..index], index == |value|)
      && (index < |value| ==> AllSegmentsOk(Split(value[index + 1..])))
  {
    var rest := value[start..];
    assert rest[..index - start] == value[start..index];
    if index < |value| {
      assert rest[index - start + 1..] == value[index + 1..];
      SplitAt(rest, index - start);
      OkCons(value[start..index], Split(value[index + 1..]));
    } else {
      assert rest == value[start..index];
      SplitPlain(rest);
      OkSingle(rest);
    }
  }

  // Valid: one scan over the bytes decides the segment-wise definition.
  method Valid(value: Node) returns (ok: bool)
    ensures ok <==> ValidNode(value)
  {
    hide Split, AllSegmentsOk, SegmentOk;
    Shortcuts(value);
    if value == WILDCARD {
      return true;
    }
    if value == "" || value[0] == '.' || value[|value| - 1] == '.' {
      return false;
    }
    var segmentStart := 0;
    assert value[0..] == value;
    for index := 0 to |value| + 1
      invariant segmentStart <= index
      invariant index <= |value| ==> '.' !in value[segmentStart..index]
      invariant index <= |value| ==> (ValidNode(value) <==> AllSegmentsOk(Split(value[segmentStart..])))
      invariant index == |value| + 1 ==> ValidNode(value)
    {
      if index < |value| && value[index] != '.' {
        continue;
      }
      ScanStep(value, segmentStart, index);
      var good := ValidSegment(value, segmentStart, index, index == |value|);
      if !good {
        return false;
      }
      segmentStart := index + 1;
    }
    ok := true;
  }

  // ---------------------------------------------------------------- matching

  function TrimSuffix(s: string, suffix: string): string {
    if |suffix| <= |s| && s[|s| - |suffix|..] == suffix then s[..|s| - |suffix|] else s
  }

  function CountDots(s: string): nat {
    if s == "" then 0 else (if s[0] == '.' then 1 else 0) + CountDots(s[1..])
  }

  // Matches, as the code decides it: on strings.
  predicate Matches(node: Node, query: Node) {
    if !ValidNode(node) || !Concrete(query) then false
    else if node == WILDCARD || node == query then true
    else
      var prefix := TrimSuffix(node, "." + WILDCARD);
      prefix != node && prefix + "." <= query
  }

  function Specificity(node: Node, query: Node): int {
    if !Matches(node, query) then -1
    else if node == WILDCARD then 0
    else CountDots(TrimSuffix(node, "." + WILDCARD)) + 1
  }

  lemma {:induction false} DotsCountSegments(s: string)
    ensures CountDots(s) + 1 == |Split(s)|
  {
    if s != "" {
      DotsCountSegments(s[1..]);
    }
  }

  lemma JoinEndsInWildcard(segments: seq<string>)
    requires segments != [] && Last(segments) == WILDCARD
    ensures var s := Join(segments); s == WILDCARD || (|s| >= 2 && s[|s| - 2..] == ".*")
  {
    assert segments == Init(segments) + [WILDCARD];
    if |segments| > 1 {
      JoinConcat(Init(segments), [WILDCARD]);
      assert Join(segments) == Join(Init(segments)) + ".*";
    }
  }

  // A wildcard node is its fixed segments followed by the wildcard segment.
  lemma WildcardShape(node: Node)
    requires ValidNode(node) && node != WILDCARD
    ensures var prefix := TrimSuffix(node, "." + WILDCARD);
      if prefix == node then Last(Split(node)) != WILDCARD
      else node == prefix + ".*" && Split(node) == Split(prefix) + [WILDCARD]
  {
    var prefix, segments := TrimSuffix(node, ".*"), Split(node);
    if prefix != node {
      assert node == prefix + ".*" == prefix + "." + "*";
      SplitConcat(prefix, "*");
      SplitPlain("*");
    } else {
      JoinSplit(node);
      if Last(segments) == WILDCARD {
        JoinEndsInWildcard(segments);
      }
    }
  }

  // String prefixes and segment prefixes agree.
  lemma PrefixBySegments(prefix: string, query: string)
    ensures prefix + "." <= query <==> Split(prefix) < Split(query)
  {
    if prefix + "." <= query {
      var rest := query[|prefix| + 1..];
      assert query == prefix + "." + rest;
      SplitConcat(prefix, rest);
    }
    if Split(prefix) < Split(query) {
      var tail := Split(query)[|Split(prefix)|..];
      assert Split(query) == Split(prefix) + tail;
      JoinConcat(Split(prefix), tail);
      JoinSplit(prefix);
      JoinSplit(query);
    }
  }

  // Matching, as the design means it: equal segment lists, or the fixed segments of a
  // wildcard node are a proper prefix of the query's.
  lemma MatchesBySegments(node: Node, query: Node)
    requires ValidNode(node) && Concrete(query)
    ensures Matches(node, query) <==>
      Split(node) == Split(query)
      || (Last(Split(node)) == WILDCARD && Init(Split(node)) < Split(query))
  {
    JoinSplit(node);
    JoinSplit(query);
    if node == WILDCARD {
      SplitPlain(node);
    } else {
      var prefix := TrimSuffix(node, ".*");
      WildcardShape(node);
      PrefixBySegments(prefix, query);
      if prefix != node {
        assert Init(Split(node)) == Split(prefix);
      }
    }
  }

  // Specificity counts the fixed segments of the grant.
  lemma SpecificityCounts(node: Node, query: Node)
    requires Matches(node, query)
    ensures Specificity(node, query)
         == if Last(Split(node)) == WILDCARD then |Split(node)| - 1 else |Split(node)|
  {
    if node == WILDCARD {
      SplitPlain(node);
    } else {
      WildcardShape(node);
      DotsCountSegments(TrimSuffix(node, ".*"));
    }
  }

  lemma NoMatchNoSpecificity(node: Node, query: Node)
    ensures Specificity(node, query) == -1 <==> !Matches(node, query)
    ensures Specificity(node, query) >= -1
  {
  }

  lemma ConcreteHasNoWildcard(query: Node)
    requires Concrete(query)
    ensures Last(Split(query)) != WILDCARD
  {
    if Last(Split(query)) == WILDCARD {
      JoinSplit(query);
      LastInJoin(Split(query));
    }
  }

  lemma {:induction false} LastInJoin(segments: seq<string>)
    requires segments != [] && Last(segments) == WILDCARD
    ensures '*' in Join(segments)
  {
    if |segments| > 1 {
      LastInJoin(segments[1..]);
    }
  }

  lemma MatchingIsValid(node: Node, query: Node)
    requires Matches(node, query)
    ensures ValidNode(node) && Concrete(query)
  {
  }

  predicate Covers(x: seq<string>, q: seq<string>)
    requires x != []
  {
    x == q || (Last(x) == WILDCARD && Init(x) < q)
  }

  lemma SameSegments(x: seq<string>, y: seq<string>, q: seq<string>)
    requires x != [] && y != [] && q != [] && Last(q) != WILDCARD && Covers(x, q) && Covers(y, q)
    requires (if Last(x) == WILDCARD then |x| - 1 else |x|) == (if Last(y) == WILDCARD then |y| - 1 else |y|)
    ensures x == y
  {
    if Last(x) == WILDCARD && Last(y) == WILDCARD {
      assert x == Init(x) + [WILDCARD] && y == Init(y) + [WILDCARD];
      assert Init(x) == q[..|x| - 1] == Init(y);
    }
  }

  // Grants of equal specificity that cover the same query are the same node.
  lemma SameSpecificitySameNode(a: Node, b: Node, query: Node)
    requires Matches(a, query) && Matches(b, query)
    requires Specificity(a, query) == Specificity(b, query)
    ensures a == b
  {
    MatchingIsValid(a, query);
    MatchingIsValid(b, query);
    hide Matches, Specificity, Split, Join, ValidNode, Concrete, Last, Init;
    MatchesBySegments(a, query);
    MatchesBySegments(b, query);
    SpecificityCounts(a, query);
    SpecificityCounts(b, query);
    ConcreteHasNoWildcard(query);
    SameSegments(Split(a), Split(b), Split(query));
    JoinSplit(a);
    JoinSplit(b);
  }

  // The exact grant always beats every wildcard.
  lemma ExactBeatsWildcards(node: Node, query: Node)
    requires Matches(node, query) && node != query
    ensures Matches(query, query) && Specificity(node, query) < Specificity(query, query)
  {
    MatchesBySegments(node, query);
    SpecificityCounts(node, query);
    SpecificityCounts(query, query);
    ConcreteHasNoWildcard(query);
    JoinSplit(node);
    JoinSplit(query);
  }
}
