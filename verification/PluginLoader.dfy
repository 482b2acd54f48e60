// internal/plugin/loader: manifest checks (manifest.go) and registration in dependency
// order (loader.go).
module PluginLoader {
  import opened Wrappers
  import opened PluginGraph
  import opened PluginResolve
  import opened StringOrder

  const SDK_VERSION := "1.0.0"

  datatype Metadata = Metadata(name: Name, version: string, author: string, sdkVersion: string,
                               dependencies: seq<Name>)

  // Semantic-version parsing, which this model takes as given.
  datatype VersionRules = VersionRules(valid: string -> bool, major: string -> int)

  // Opening an object, looking up its symbol and calling Metadata, as one outcome.
  datatype Opened = Entry(metadata: Metadata) | Unopened(reason: string)

  datatype SkipReason =
    | OpenFailed(reason: string)
    | InvalidMetadata
    | IncompatibleSDK
    | Unresolved(error: ResolveError)
    | DependencyFailed(name: Name)
    | RegisterFailed

  datatype Report = Report(discovered: nat, loaded: seq<Name>, skipped: map<string, SkipReason>)

  // ---------------------------------------------------------------- manifests

  predicate NameChar(c: char) {
    'a' <= c <= 'z' || '0' <= c <= '9' || c == '-'
  }

  // By their codes: a to z, 0 to 9 and the dash.
  lemma NameChars(c: char)
    ensures NameChar(c) <==> var code := c as int; 96 < code < 123 || 47 < code < 58 || code == 45
  {
  }

  ghost predicate SafeName(name: Name) {
    name != "" && name[0] != '-' && name[|name| - 1] != '-' && forall c :: c in name ==> NameChar(c)
  }

  // Each character is a letter, a digit, or a dash with characters on both sides.
  lemma SafeNameExactly(name: Name)
    ensures SafeName(name) <==> |name| > 0 && forall i :: 0 <= i < |name| ==> SafeAt(name, i)
  {
    if SafeName(name) {
      forall i | 0 <= i < |name| ensures SafeAt(name, i) {
        assert name[i] in name;
      }
    }
    if |name| > 0 && forall i :: 0 <= i < |name| ==> SafeAt(name, i) {
      assert SafeAt(name, 0) && SafeAt(name, |name| - 1);
      forall c | c in name ensures NameChar(c) {
        var i :| 0 <= i < |name| && name[i] == c;
        assert SafeAt(name, i);
      }
    }
  }

  predicate SafeAt(name: Name, i: int)
    requires 0 <= i < |name|
  {
    var code := name[i] as int;
    96 < code < 123 || 47 < code < 58 || (code == 45 && 0 < i < |name| - 1)
  }

  method ValidName(name: Name) returns (ok: bool)
    ensures ok <==> SafeName(name)
  {
    if name == "" || name[0] == '-' || name[|name| - 1] == '-' {
      return false;
    }
    for i := 0 to |name|
      invariant forall j :: 0 <= j < i ==> NameChar(name[j])
    {
      if !NameChar(name[i]) {
        assert name[i] in name;
        return false;
      }
    }
    ok := true;
  }

  ghost predicate SafeManifest(rules: VersionRules, m: Metadata) {
    && m.version != "" && m.author != "" && m.sdkVersion != ""
    && SafeName(m.name)
    && (forall d :: d in m.dependencies ==> SafeName(d) && d != m.name)
    && Distinct(m.dependencies)
    && rules.valid(m.version) && rules.valid(m.sdkVersion)
  }

  // No text is missing, every name is safe, no dependency is listed twice or is the plugin
  // itself, and both versions are versions.
  lemma SafeManifestExactly(rules: VersionRules, m: Metadata)
    ensures SafeManifest(rules, m) <==>
      && |m.version| > 0 && |m.author| > 0 && |m.sdkVersion| > 0
      && rules.valid(m.version) && rules.valid(m.sdkVersion) && SafeName(m.name)
      && forall i :: 0 <= i < |m.dependencies| ==>
           && SafeName(m.dependencies[i]) && m.dependencies[i] != m.name
           && m.dependencies[i] !in m.dependencies[..i]
  {
    if SafeManifest(rules, m) {
      forall i | 0 <= i < |m.dependencies| ensures m.dependencies[i] !in m.dependencies[..i] {
        assert m.dependencies[i] in m.dependencies;
      }
    }
    if forall i :: 0 <= i < |m.dependencies| ==> m.dependencies[i] !in m.dependencies[..i] {
      forall i, j | 0 <= i < j < |m.dependencies| ensures m.dependencies[i] != m.dependencies[j] {
        assert m.dependencies[..j][i] == m.dependencies[i];
      }
    }
  }

  method ValidMetadata(rules: VersionRules, m: Metadata) returns (ok: bool)
    ensures ok <==> SafeManifest(rules, m)
  {
    if m.name == "" || m.version == "" || m.author == "" || m.sdkVersion == "" {
      return false;
    }
    ok := ValidName(m.name);
    if !ok {
      return;
    }
    var seen: set<Name> := {};
    for i := 0 to |m.dependencies|
      invariant seen == set k | 0 <= k < i :: m.dependencies[k]
      invariant forall k :: 0 <= k < i ==> SafeName(m.dependencies[k]) && m.dependencies[k] != m.name
      invariant Distinct(m.dependencies[..i])
    {
      var dependency := m.dependencies[i];
      ok := ValidName(dependency);
      if !ok || dependency == m.name || dependency in seen {
        return false;
      }
      seen := seen + {dependency};
    }
    assert m.dependencies[..|m.dependencies|] == m.dependencies;
    ok := rules.valid(m.version) && rules.valid(m.sdkVersion);
  }

  // ---------------------------------------------------------------- registration order

  // The first dependency that did not register, or the empty string.
  method FailedDependency(dependencies: seq<Name>, loaded: set<Name>) returns (failed: Name)
    ensures (failed == "" && forall d :: d in dependencies ==> d in loaded)
         || exists i :: 0 <= i < |dependencies| && failed == dependencies[i] && failed !in loaded
              && forall j :: 0 <= j < i ==> dependencies[j] in loaded
  {
    for i := 0 to |dependencies|
      invariant forall j :: 0 <= j < i ==> dependencies[j] in loaded
    {
      if dependencies[i] !in loaded {
        return dependencies[i];
      }
    }
    failed := "";
  }

  // The names registered when plugins are taken in order.
  function Registered(ordered: seq<Candidate>, registers: Candidate -> bool): (r: seq<Name>)
    ensures forall n :: n in r ==> n in NamesOf(ordered)
  {
    if ordered == [] then []
    else
      var init, last := ordered[..|ordered| - 1], ordered[|ordered| - 1];
      var before := Registered(init, registers);
      assert NamesOf(ordered) == NamesOf(init) + [last.name];
      if (forall d :: d in last.dependencies ==> d in before) && registers(last)
      then before + [last.name] else before
  }

  lemma NothingRegistered(registers: Candidate -> bool)
    ensures Registered([], registers) == []
  {
  }

  lemma RegisteredStep(ordered: seq<Candidate>, registers: Candidate -> bool, i: nat)
    requires i < |ordered|
    ensures Registered(ordered[..i + 1], registers) == Registered(ordered[..i], registers)
      + (if (forall d :: d in ordered[i].dependencies ==> d in Registered(ordered[..i], registers))
            && registers(ordered[i])
         then [ordered[i].name] else [])
  {
    assert ordered[..i + 1][..i] == ordered[..i];
  }

  // d is the first of the dependencies that is not loaded.
  ghost predicate FirstMissing(dependencies: seq<Name>, loaded: seq<Name>, d: Name) {
    exists i :: 0 <= i < |dependencies| && d == dependencies[i] && d !in loaded
                && forall j :: 0 <= j < i ==> dependencies[j] in loaded
  }

  // There is one exactly when some dependency is not loaded, and never another.
  lemma FirstMissingExactly(dependencies: seq<Name>, loaded: seq<Name>, d: Name, e: Name)
    ensures FirstMissing(dependencies, loaded, d) ==> d in dependencies && d !in loaded
    ensures FirstMissing(dependencies, loaded, d) && FirstMissing(dependencies, loaded, e) ==> d == e
    ensures (exists n :: n in dependencies && n !in loaded) <==> exists n :: FirstMissing(dependencies, loaded, n)
  {
    if n :| n in dependencies && n !in loaded {
      var k :| 0 <= k < |dependencies| && dependencies[k] == n;
      var first := FirstAt(dependencies, loaded, k);
    }
  }

  lemma {:induction false} FirstAt(dependencies: seq<Name>, loaded: seq<Name>, k: nat) returns (d: Name)
    requires k < |dependencies| && dependencies[k] !in loaded
    ensures FirstMissing(dependencies, loaded, d)
    decreases k
  {
    if j :| 0 <= j < k && dependencies[j] !in loaded {
      d := FirstAt(dependencies, loaded, j);
    } else {
      d := dependencies[k];
    }
  }

  // Why the plugin in position i of the order did not load.
  ghost predicate Explained(ordered: seq<Candidate>, registers: Candidate -> bool, i: nat, reason: SkipReason)
    requires i < |ordered|
  {
    var before := Registered(ordered[..i], registers);
    match reason
    case DependencyFailed(d) => FirstMissing(ordered[i].dependencies, before, d)
    case RegisterFailed => !registers(ordered[i]) && forall d :: d in ordered[i].dependencies ==> d in before
    case _ => false
  }

  // A plugin has one reason not to load, and has it exactly when its dependencies did not
  // all load before or its own registration fails.
  lemma OneReason(ordered: seq<Candidate>, registers: Candidate -> bool, i: nat, r: SkipReason, s: SkipReason)
    requires i < |ordered|
    ensures Explained(ordered, registers, i, r) && Explained(ordered, registers, i, s) ==> r == s
    ensures Explained(ordered, registers, i, r) ==> r.DependencyFailed? || r == RegisterFailed
    ensures (exists t :: Explained(ordered, registers, i, t)) <==>
      !registers(ordered[i])
      || exists d :: d in ordered[i].dependencies && d !in Registered(ordered[..i], registers)
  {
    hide FirstMissing, Registered;
    var deps, before := ordered[i].dependencies, Registered(ordered[..i], registers);
    forall d, e ensures FirstMissing(deps, before, d) && FirstMissing(deps, before, e) ==> d == e {
      FirstMissingExactly(deps, before, d, e);
    }
    forall d ensures FirstMissing(deps, before, d) ==> d in deps && d !in before {
      FirstMissingExactly(deps, before, d, d);
    }
    FirstMissingExactly(deps, before, "", "");
    if d :| d in deps && d !in before {
      var n :| FirstMissing(deps, before, n);
      assert Explained(ordered, registers, i, DependencyFailed(n));
    } else if !registers(ordered[i]) {
      assert Explained(ordered, registers, i, RegisterFailed);
    }
  }

  ghost predicate AllExplained(ordered: seq<Candidate>, registers: Candidate -> bool, k: nat, loaded: seq<Name>,
                               skipped: map<string, SkipReason>)
    requires k <= |ordered|
  {
    forall i :: 0 <= i < k && ordered[i].name !in loaded ==>
      ordered[i].name in skipped && Explained(ordered, registers, i, skipped[ordered[i].name])
  }

  lemma ExplainedStep(ordered: seq<Candidate>, registers: Candidate -> bool, k: nat, loaded: seq<Name>,
                      skipped: map<string, SkipReason>, reason: SkipReason)
    requires k < |ordered| && Distinct(NamesOf(ordered))
    requires AllExplained(ordered, registers, k, loaded, skipped)
    requires Explained(ordered, registers, k, reason)
    ensures AllExplained(ordered, registers, k + 1, loaded, skipped[ordered[k].name := reason])
  {
    hide Explained;
    forall i | 0 <= i < k ensures ordered[i].name != ordered[k].name {
      assert NamesOf(ordered)[i] != NamesOf(ordered)[k];
    }
  }

  lemma ExplainedKept(ordered: seq<Candidate>, registers: Candidate -> bool, k: nat, loaded: seq<Name>,
                      skipped: map<string, SkipReason>)
    requires k < |ordered| && AllExplained(ordered, registers, k, loaded, skipped)
    ensures AllExplained(ordered, registers, k + 1, loaded + [ordered[k].name], skipped)
  {
    hide Explained;
  }

  // The whole dependency closure of n is present and registers without error.
  ghost predicate ClosureRegisters(g: Graph, n: Name, registers: Candidate -> bool) {
    forall m :: Reaches(g, n, m) ==> m in g && registers(g[m])
  }

  lemma ReachesFirst(g: Graph, n: Name, m: Name)
    requires Reaches(g, n, m) && n != m
    ensures exists d :: Depends(g, n, d) && Reaches(g, d, m)
  {
    var p :| PathFromTo(g, p, n, m);
    var q := p[1..];
    forall i | 0 <= i < |q| - 1 ensures Depends(g, q[i], q[i + 1]) {
      assert q[i] == p[i + 1] && q[i + 1] == p[i + 1 + 1];
    }
    assert Depends(g, p[0], p[0 + 1]);
    assert PathFromTo(g, q, p[1], m);
  }

  lemma ClosureStep(g: Graph, n: Name, registers: Candidate -> bool)
    ensures ClosureRegisters(g, n, registers) <==>
      n in g && registers(g[n]) && forall d :: d in g[n].dependencies ==> ClosureRegisters(g, d, registers)
  {
    ReachesSelf(g, n);
    if ClosureRegisters(g, n, registers) {
      forall d, m | d in g[n].dependencies && Reaches(g, d, m) ensures m in g && registers(g[m]) {
        ReachesThrough(g, n, d, m);
      }
    } else {
      var m :| Reaches(g, n, m) && !(m in g && registers(g[m]));
      if m != n {
        ReachesFirst(g, n, m);
      }
    }
  }

  ghost predicate FromGraph(g: Graph, ordered: seq<Candidate>) {
    && WellNamed(g)
    && forall i :: 0 <= i < |ordered| ==> ordered[i].name in g && ordered[i] == g[ordered[i].name]
  }

  // Among plugins listed dependencies first, exactly those whose closure registers load.
  lemma {:induction false} RegisteredExact(g: Graph, ordered: seq<Candidate>, registers: Candidate -> bool, n: Name)
    requires FromGraph(g, ordered) && DependencyFirst(ordered) && Distinct(NamesOf(ordered))
    requires n in NamesOf(ordered)
    ensures n in Registered(ordered, registers) <==> ClosureRegisters(g, n, registers)
    decreases |ordered|
  {
    var k := |ordered| - 1;
    var init, last := ordered[..k], ordered[k];
    PrefixFine(g, ordered, k);
    assert ordered == ordered[..k + 1];
    if n != last.name {
      RegisteredExact(g, init, registers, n);
    } else {
      ClosureStep(g, n, registers);
      forall d | d in last.dependencies
        ensures d in Registered(init, registers) <==> ClosureRegisters(g, d, registers)
      {
        RegisteredExact(g, init, registers, d);
      }
    }
  }

  lemma NamesPrefix(ordered: seq<Candidate>, k: nat)
    requires k <= |ordered| && Distinct(NamesOf(ordered))
    ensures Distinct(NamesOf(ordered[..k]))
    ensures k < |ordered| ==> NamesOf(ordered[..k + 1]) == NamesOf(ordered[..k]) + [ordered[k].name]
    ensures k < |ordered| ==> ordered[k].name !in NamesOf(ordered[..k])
  {
    var names := NamesOf(ordered);
    assert NamesOf(ordered[..k]) == names[..k];
    assert k < |ordered| ==> NamesOf(ordered[..k + 1]) == names[..k + 1];
    assert forall i :: 0 <= i < k < |ordered| ==> names[i] != names[k];
  }

  lemma PrefixFine(g: Graph, ordered: seq<Candidate>, k: nat)
    requires k <= |ordered|
    requires FromGraph(g, ordered) && DependencyFirst(ordered) && Distinct(NamesOf(ordered))
    ensures FromGraph(g, ordered[..k]) && DependencyFirst(ordered[..k]) && Distinct(NamesOf(ordered[..k]))
    ensures k < |ordered| ==> NamesOf(ordered[..k + 1]) == NamesOf(ordered[..k]) + [ordered[k].name]
    ensures k < |ordered| ==> ordered[k].name !in NamesOf(ordered[..k])
    ensures k < |ordered| ==> forall d :: d in ordered[k].dependencies ==> d in NamesOf(ordered[..k])
  {
    NamesPrefix(ordered, k);
    forall i, d | 0 <= i < k && d in ordered[..k][i].dependencies ensures d in NamesOf(ordered[..k][..i]) {
      assert ordered[..k][..i] == ordered[..i];
    }
  }

  // Loaded plugins are listed once, after everything they depend on.
  lemma {:induction false} RegisteredInOrder(g: Graph, ordered: seq<Candidate>, registers: Candidate -> bool)
    requires FromGraph(g, ordered) && DependencyFirst(ordered) && Distinct(NamesOf(ordered))
    ensures var loaded := Registered(ordered, registers);
      && Distinct(loaded)
      && forall i, d :: 0 <= i < |loaded| && Depends(g, loaded[i], d) ==> d in loaded[..i]
    decreases |ordered|
  {
    if ordered == [] {
    } else {
      var k := |ordered| - 1;
      PrefixFine(g, ordered, k);
      RegisteredInOrder(g, ordered[..k], registers);
      var before, loaded := Registered(ordered[..k], registers), Registered(ordered, registers);
      forall i, d | 0 <= i < |loaded| && Depends(g, loaded[i], d) ensures d in loaded[..i] {
        if i < |before| {
          assert loaded[..i] == before[..i];
        } else {
          assert loaded[..i] == before;
        }
      }
    }
  }

  // ---------------------------------------------------------------- the loader

  // The candidates that survive opening and validation, in path order.
  ghost predicate Usable(rules: VersionRules, o: Opened) {
    && o.Entry? && SafeManifest(rules, o.metadata)
    && rules.major(o.metadata.sdkVersion) == rules.major(SDK_VERSION)
  }

  // Why an object is not usable.
  ghost function Rejection(rules: VersionRules, o: Opened): Option<SkipReason> {
    match o
    case Unopened(reason) => Some(OpenFailed(reason))
    case Entry(m) =>
      if !SafeManifest(rules, m) then Some(InvalidMetadata)
      else if rules.major(m.sdkVersion) != rules.major(SDK_VERSION) then Some(IncompatibleSDK)
      else None
  }

  lemma RejectedExactly(rules: VersionRules, o: Opened)
    ensures var r := Rejection(rules, o);
      && (r == None <==> Usable(rules, o))
      && (r.Some? && r.value.OpenFailed? <==> o.Unopened?) && (o.Unopened? ==> r == Some(OpenFailed(o.reason)))
      && (r == Some(InvalidMetadata) <==> o.Entry? && !SafeManifest(rules, o.metadata))
      && (r == Some(IncompatibleSDK) <==>
            && o.Entry? && SafeManifest(rules, o.metadata)
            && rules.major(o.metadata.sdkVersion) != rules.major("1.0.0"))
  {
  }

  ghost function Candidates(rules: VersionRules, paths: seq<string>, open: string -> Opened): seq<Candidate> {
    if paths == [] then []
    else
      var init, last := paths[..|paths| - 1], paths[|paths| - 1];
      Candidates(rules, init, open)
      + (if Usable(rules, open(last))
         then [Candidate(last, open(last).metadata.name, open(last).metadata.dependencies)] else [])
  }

  // A candidate for each usable object, under its manifest's name, and no others.
  lemma {:induction false} CandidatesExactly(rules: VersionRules, paths: seq<string>, open: string -> Opened,
                                             c: Candidate)
    ensures c in Candidates(rules, paths, open) <==>
      exists i :: 0 <= i < |paths| && Usable(rules, open(paths[i])) && IsCandidate(open, paths[i], c)
  {
    if paths != [] {
      var init, last := paths[..|paths| - 1], paths[|paths| - 1];
      CandidatesExactly(rules, init, open, c);
      if i :| 0 <= i < |paths| && Usable(rules, open(paths[i])) && IsCandidate(open, paths[i], c) {
        assert i < |init| ==> init[i] == paths[i];
      }
      if i :| 0 <= i < |init| && Usable(rules, open(init[i])) && IsCandidate(open, init[i], c) {
        assert paths[i] == init[i];
      }
      if Usable(rules, open(last)) && IsCandidate(open, last, c) {
        assert paths[|init|] == last;
      }
    }
  }

  predicate IsCandidate(open: string -> Opened, path: string, c: Candidate) {
    var o := open(path);
    o.Entry? && c.path == path && c.name == o.metadata.name && c.dependencies == o.metadata.dependencies
  }

  ghost function Unusable(rules: VersionRules, paths: seq<string>, open: string -> Opened): set<string> {
    set i | 0 <= i < |paths| && !Usable(rules, open(paths[i])) :: paths[i]
  }

  lemma {:induction false} CandidatesSafe(rules: VersionRules, paths: seq<string>, open: string -> Opened)
    ensures forall c :: c in Candidates(rules, paths, open) ==>
      SafeName(c.name) && forall d :: d in c.dependencies ==> SafeName(d)
  {
    if paths != [] {
      CandidatesSafe(rules, paths[..|paths| - 1], open);
    }
  }

  class Loader {
    var report: Report

    constructor ()
      ensures report == Report(0, [], map[])
    {
      report := Report(0, [], map[]);
    }

    method OpenCandidates(rules: VersionRules, paths: seq<string>, open: string -> Opened)
      returns (candidates: seq<Candidate>, skipped: map<string, SkipReason>)
      ensures candidates == Candidates(rules, paths, open)
      ensures skipped.Keys == Unusable(rules, paths, open)
      ensures forall p :: p in skipped ==> Rejection(rules, open(p)) == Some(skipped[p])
    {
      candidates, skipped := [], map[];
      for i := 0 to |paths|
        invariant candidates == Candidates(rules, paths[..i], open)
        invariant skipped.Keys == Unusable(rules, paths[..i], open)
        invariant forall p :: p in skipped ==> Rejection(rules, open(p)) == Some(skipped[p])
      {
        var path := paths[i];
        assert paths[..i + 1][..i] == paths[..i];
        assert Unusable(rules, paths[..i + 1], open)
            == Unusable(rules, paths[..i], open) + (if Usable(rules, open(path)) then {} else {path}) by {
          UnusableStep(rules, paths, open, i);
        }
        match open(path)
        case Unopened(reason) =>
          skipped := skipped[path := OpenFailed(reason)];
        case Entry(metadata) =>
          var ok := ValidMetadata(rules, metadata);
          if !ok {
            skipped := skipped[path := InvalidMetadata];
          } else if rules.major(metadata.sdkVersion) != rules.major(SDK_VERSION) {
            skipped := skipped[path := IncompatibleSDK];
          } else {
            candidates := candidates + [Candidate(path, metadata.name, metadata.dependencies)];
          }
      }
      assert paths[..|paths|] == paths;
    }

    // Load: every candidate name ends up in exactly one of Loaded and Skipped.
    method Load(rules: VersionRules, scan: Option<seq<string>>, open: string -> Opened, registers: Candidate -> bool)
      modifies this
      ensures scan.None? ==> report == old(report)
      ensures scan.Some? ==>
        (var candidates := Candidates(rules, scan.value, open);
         && report.discovered == |scan.value|
         && report.loaded == Registered(Searched(candidates).ordered, registers)
         && report.skipped.Keys
              == Unusable(rules, scan.value, open) + (AllNames(candidates) - (set n | n in report.loaded)))
      ensures scan.Some? ==>
        (var s := Searched(Candidates(rules, scan.value, open));
         && AllExplained(s.ordered, registers, |s.ordered|, report.loaded, report.skipped)
         && (forall n :: n in s.blocked ==> n in report.skipped && report.skipped[n] == Unresolved(s.blocked[n]))
         && (forall p :: p in report.skipped && p !in s.blocked && p !in NamesOf(s.ordered) ==>
               Rejection(rules, open(p)) == Some(report.skipped[p])))
    {
      hide Registered, Searched, Candidates, Unusable, AllNames, NamesOf, Distinct, AllExplained, Rejection;
      if scan.None? {
        return;
      }
      var paths := scan.value;
      var candidates, unopened := OpenCandidates(rules, paths, open);
      var ordered, blocked := Resolve(candidates);
      var before := unopened + map n | n in blocked :: Unresolved(blocked[n]);
      ResolvedSafe(rules, paths, open);
      var loaded, skipped := RegisterAll(ordered, registers, before);
      BlockedNotOrdered(NamesOf(ordered), blocked.Keys);
      SkippedKeys(unopened.Keys, AllNames(candidates), blocked.Keys, NamesOf(ordered), loaded, skipped.Keys);
      report := Report(|paths|, loaded, skipped);
    }

    // Takes resolved plugins in order; a plugin loads when all its dependencies did and
    // its own registration succeeds.
    method RegisterAll(ordered: seq<Candidate>, registers: Candidate -> bool, before: map<string, SkipReason>)
      returns (loaded: seq<Name>, skipped: map<string, SkipReason>)
      requires forall i, d :: 0 <= i < |ordered| && d in ordered[i].dependencies ==> d != ""
      requires Distinct(NamesOf(ordered))
      ensures loaded == Registered(ordered, registers)
      ensures forall n :: n in skipped <==> n in before || (n in NamesOf(ordered) && n !in loaded)
      ensures forall n :: n in before && n !in NamesOf(ordered) ==> skipped[n] == before[n]
      ensures AllExplained(ordered, registers, |ordered|, loaded, skipped)
    {
      hide Distinct, Registered, AllExplained;
      assert Registered([], registers) == [] by { NothingRegistered(registers); }
      loaded, skipped := [], before;
      var done: set<Name> := {};
      assert AllExplained(ordered, registers, 0, loaded, skipped) by {
        NothingToExplain(ordered, registers, loaded, skipped);
      }
      for i := 0 to |ordered|
        invariant loaded == Registered(ordered[..i], registers)
        invariant forall n :: n in done <==> n in loaded
        invariant forall n :: n in skipped <==> n in before || (n in NamesOf(ordered[..i]) && n !in loaded)
        invariant forall n :: n in before && n !in NamesOf(ordered[..i]) ==> skipped[n] == before[n]
        invariant AllExplained(ordered, registers, i, loaded, skipped)
      {
        var current := ordered[i];
        RegisteredStep(ordered, registers, i);
        NamesPrefix(ordered, i);
        var failed := FailedDependency(current.dependencies, done);
        assert failed in current.dependencies ==> failed in ordered[i].dependencies && failed != "";
        assert failed == "" <==> forall d :: d in current.dependencies ==> d in done;
        if failed != "" {
          ExplainedStep(ordered, registers, i, loaded, skipped, DependencyFailed(failed));
          skipped := skipped[current.name := DependencyFailed(failed)];
        } else if !registers(current) {
          ExplainedStep(ordered, registers, i, loaded, skipped, RegisterFailed);
          skipped := skipped[current.name := RegisterFailed];
        } else {
          ExplainedKept(ordered, registers, i, loaded, skipped);
          done := done + {current.name};
          loaded := loaded + [current.name];
        }
      }
      assert ordered[..|ordered|] == ordered;
    }
  }

  lemma BlockedNotOrdered(ordered: seq<Name>, blocked: set<Name>)
    requires (set n | n in ordered) !! blocked
    ensures forall n :: n in blocked ==> n !in ordered
  {
    forall n | n in blocked ensures n !in ordered {
      assert n in ordered ==> n in (set m | m in ordered);
    }
  }

  lemma NothingToExplain(ordered: seq<Candidate>, registers: Candidate -> bool, loaded: seq<Name>,
                         skipped: map<string, SkipReason>)
    ensures AllExplained(ordered, registers, 0, loaded, skipped)
  {
  }

  // ---------------------------------------------------------------- the theorem about Load

  // For any pattern of registration failures a plugin loads exactly when it is resolvable
  // and its whole dependency closure registers; it is listed once, after its dependencies.
  lemma LoadExact(candidates: seq<Candidate>, registers: Candidate -> bool)
    ensures var g, loaded := Available(candidates), Registered(Searched(candidates).ordered, registers);
      && (forall n :: n in loaded <==> Resolvable(g, n) && ClosureRegisters(g, n, registers))
      && Distinct(loaded)
      && (forall i, d :: 0 <= i < |loaded| && Depends(g, loaded[i], d) ==> d in loaded[..i])
  {
    hide Explains, Resolvable, Searched, Available, ClosureRegisters;
    ResolveExact(candidates);
    var g, s := Available(candidates), Searched(candidates);
    assert FromGraph(g, s.ordered) by { OrderedFromGraph(candidates); }
    RegisteredInOrder(g, s.ordered, registers);
    forall n | n in NamesOf(s.ordered)
      ensures n in Registered(s.ordered, registers) <==> ClosureRegisters(g, n, registers)
    {
      RegisteredExact(g, s.ordered, registers, n);
    }
  }

  lemma OrderedFromGraph(candidates: seq<Candidate>)
    ensures FromGraph(Available(candidates), Searched(candidates).ordered)
  {
    var g, dups := Available(candidates), Duplicates(candidates);
    hide Explains, Resolvable, Named;
    StartSound(g, dups);
    VisitRootsSound(g, dups, Start(dups), Sorted(g.Keys));
  }

  lemma ResolvedSafe(rules: VersionRules, paths: seq<string>, open: string -> Opened)
    ensures var candidates := Candidates(rules, paths, open);
      var s := Searched(candidates);
      && (forall i, d :: 0 <= i < |s.ordered| && d in s.ordered[i].dependencies ==> d != "")
      && Distinct(NamesOf(s.ordered))
      && AllNames(candidates) == (set n | n in NamesOf(s.ordered)) + s.blocked.Keys
      && (set n | n in NamesOf(s.ordered)) !! s.blocked.Keys
  {
    hide Explains, Resolvable, Searched, Candidates, Available;
    ResolveExact(Candidates(rules, paths, open));
    CandidatesSafe(rules, paths, open);
    var s := Searched(Candidates(rules, paths, open));
    forall i, d | 0 <= i < |s.ordered| && d in s.ordered[i].dependencies ensures d != "" {
      assert s.ordered[i] in s.ordered;
    }
  }

  lemma SkippedKeys(unopened: set<string>, all: set<Name>, blocked: set<Name>, ordered: seq<Name>,
                    loaded: seq<Name>, skipped: set<string>)
    requires all == (set n | n in ordered) + blocked && (set n | n in ordered) !! blocked
    requires forall n :: n in loaded ==> n in ordered
    requires forall n :: n in skipped <==>
      n in unopened || n in blocked || (n in ordered && n !in loaded)
    ensures skipped == unopened + (all - (set n | n in loaded))
  {
  }

  // A skipped path is never mistaken for a plugin name: scanned paths end in ".so", and a
  // dot is not allowed in a name. So Loaded and Skipped share no candidate name.
  lemma LoadedXorSkipped(rules: VersionRules, paths: seq<string>, open: string -> Opened,
                         registers: Candidate -> bool, n: Name)
    requires forall p :: p in paths ==> '.' in p
    ensures var candidates := Candidates(rules, paths, open);
      var loaded := Registered(Searched(candidates).ordered, registers);
      var skipped := Unusable(rules, paths, open) + (AllNames(candidates) - (set m | m in loaded));
      n in AllNames(candidates) ==> ((n in loaded) <==> (n !in skipped))
  {
    CandidatesSafe(rules, paths, open);
    var candidates := Candidates(rules, paths, open);
    if n in AllNames(candidates) {
      var c :| c in candidates && c.name == n;
      assert SafeName(n);
      assert '.' !in n;
    }
  }

  lemma UnusableStep(rules: VersionRules, paths: seq<string>, open: string -> Opened, i: nat)
    requires i < |paths|
    ensures Unusable(rules, paths[..i + 1], open)
         == Unusable(rules, paths[..i], open) + (if Usable(rules, open(paths[i])) then {} else {paths[i]})
  {
    assert forall k :: 0 <= k <= i ==> paths[..i + 1][k] == paths[k];
    assert forall k :: 0 <= k < i ==> paths[..i][k] == paths[k];
  }
}
