// The persisted permission records and the rules every mutation is checked against:
// internal/permission/service/validation.go and mutation.go, over the tables of
// internal/permission/repository.
module PermissionStore {
  import opened Wrappers
  import opened PermissionNode
  import opened PermissionResolve
  import StringOrder

  datatype Store = Store(groups: Groups, groupNodes: map<int, map<Node, bool>>,
                         memberships: map<int, set<int>>, playerNodes: map<int, map<Node, bool>>)

  // Text handling this model takes as given: whitespace trimming and badge URL syntax.
  datatype TextRules = TextRules(trim: string -> string, badgeOk: string -> bool)

  // ---------------------------------------------------------------- reads

  // Grants are listed in node order.
  function ListNodes(nodes: map<Node, bool>): seq<Grant> {
    var order := StringOrder.Sorted(nodes.Keys);
    seq(|order|, i requires 0 <= i < |order| => Grant(order[i], nodes[order[i]]))
  }

  // Each stored grant is listed, with its own flag, and nothing else.
  lemma ListedGrants(nodes: map<Node, bool>, g: Grant)
    ensures g in ListNodes(nodes) <==> g.node in nodes && nodes[g.node] == g.allowed
  {
    var order, listed := StringOrder.Sorted(nodes.Keys), ListNodes(nodes);
    if g.node in nodes && nodes[g.node] == g.allowed {
      var i :| 0 <= i < |order| && order[i] == g.node;
      assert listed[i] == g;
    }
  }

  // Node by node, each once.
  lemma ListedInOrder(nodes: map<Node, bool>, i: nat, j: nat)
    requires i < j < |ListNodes(nodes)|
    ensures var a, b := ListNodes(nodes)[i].node, ListNodes(nodes)[j].node;
      a != b && StringOrder.Before(a, b)
  {
    StringOrder.SortedAscends(nodes.Keys, i, j);
  }

  function GroupNodes(store: Store, id: int): seq<Grant> {
    if id in store.groupNodes then ListNodes(store.groupNodes[id]) else []
  }

  function GroupListing(store: Store): Listing {
    i => GroupNodes(store, i)
  }

  function PlayerNodes(store: Store, player: int): seq<Grant> {
    if player in store.playerNodes then ListNodes(store.playerNodes[player]) else []
  }

  // Heavier groups first, then lower ids.
  predicate Outranks(a: Group, b: Group) {
    a.weight > b.weight || (a.weight == b.weight && a.id <= b.id)
  }

  predicate TopRanked(groups: Groups, members: set<int>, id: int) {
    id in members && id in groups && forall m :: m in members && m in groups ==> Outranks(groups[id], groups[m])
  }

  lemma SomeMember(s: set<int>) returns (x: int)
    requires s != {}
    ensures x in s
  {
    assert (forall y: int :: y !in s) ==> s == {};
    x :| x in s;
  }

  lemma {:induction false} TopExists(groups: Groups, members: set<int>) returns (id: int)
    requires IDsMatch(groups) && members != {} && members <= groups.Keys
    ensures TopRanked(groups, members, id)
  {
    var x := SomeMember(members);
    if members == {x} {
      id := x;
    } else {
      var rest := members - {x};
      assert members == rest + {x};
      id := TopExists(groups, rest);
      if !Outranks(groups[id], groups[x]) {
        id := x;
      }
    }
  }

  // The one that goes before all others.
  function Top(groups: Groups, members: set<int>): (id: int)
    requires IDsMatch(groups) && members != {} && members <= groups.Keys
    ensures TopRanked(groups, members, id)
  {
    assert exists id :: id in members && TopRanked(groups, members, id) by {
      var id := TopExists(groups, members);
    }
    var id :| id in members && TopRanked(groups, members, id);
    id
  }

  // The groups of a set of ids in priority order.
  function Ranked(groups: Groups, members: set<int>): (r: seq<Group>)
    requires IDsMatch(groups) && members <= groups.Keys
    ensures forall i :: 0 <= i < |r| ==> r[i].id in members && r[i] == groups[r[i].id]
    ensures forall id :: id in members ==> groups[id] in r
    decreases members
  {
    if members == {} then []
    else
      var id := Top(groups, members);
      [groups[id]] + Ranked(groups, members - {id})
  }

  lemma {:induction false} RankedInOrder(groups: Groups, members: set<int>, i: nat, j: nat)
    requires IDsMatch(groups) && members <= groups.Keys && i < j < |Ranked(groups, members)|
    ensures var a, b := Ranked(groups, members)[i], Ranked(groups, members)[j];
      a.weight > b.weight || (a.weight == b.weight && a.id < b.id)
    decreases members
  {
    hide Ranked, Outranks;
    RankedFirst(groups, members);
    var r, top := Ranked(groups, members), Top(groups, members);
    var rest := Ranked(groups, members - {top});
    if i == 0 {
      assert r[j] == rest[j - 1];
      OutranksMeans(groups[top], r[j]);
    } else {
      RankedInOrder(groups, members - {top}, i - 1, j - 1);
      assert r[i] == rest[i - 1] && r[j] == rest[j - 1];
    }
  }

  lemma RankedFirst(groups: Groups, members: set<int>)
    requires IDsMatch(groups) && members <= groups.Keys && Ranked(groups, members) != []
    ensures members != {}
    ensures var top := Top(groups, members);
      Ranked(groups, members) == [groups[top]] + Ranked(groups, members - {top})
  {
  }

  lemma OutranksMeans(a: Group, b: Group)
    requires Outranks(a, b) && a.id != b.id
    ensures a.weight > b.weight || (a.weight == b.weight && a.id < b.id)
  {
  }

  // Ranking looks only at the records of the members themselves.
  lemma {:induction false} RankedAgree(groups: Groups, groups': Groups, members: set<int>)
    requires IDsMatch(groups) && IDsMatch(groups') && members <= groups.Keys && members <= groups'.Keys
    requires forall id :: id in members ==> groups'[id] == groups[id]
    ensures Ranked(groups', members) == Ranked(groups, members)
    decreases members
  {
    if members == {} {
    } else {
      var id := Ranked(groups, members)[0].id;
      assert TopRanked(groups, members, id) && TopRanked(groups', members, id);
      assert Ranked(groups', members)[0].id == id;
      RankedAgree(groups, groups', members - {id});
    }
  }

  function PlayerGroups(store: Store, player: int): seq<Group>
    requires IDsMatch(store.groups)
  {
    if player in store.memberships
    then Ranked(store.groups, store.memberships[player] * store.groups.Keys) else []
  }

  // ---------------------------------------------------------------- rooted inheritance

  // The chain of parents starting at parent ends after exactly n groups.
  ghost predicate EndsAfter(groups: Groups, parent: Option<int>, n: nat)
    decreases n
  {
    match parent
    case None => n == 0
    case Some(p) => n > 0 && p in groups && EndsAfter(groups, groups[p].parent, n - 1)
  }

  ghost predicate Ends(groups: Groups, parent: Option<int>) {
    exists n: nat :: EndsAfter(groups, parent, n)
  }

  // No dangling parent and no cycle anywhere.
  ghost predicate Rooted(groups: Groups) {
    forall id :: id in groups ==> Ends(groups, Some(id))
  }

  ghost predicate UniqueNames(groups: Groups) {
    forall a, b :: a in groups && b in groups && groups[a].name == groups[b].name ==> a == b
  }

  ghost predicate StoreOk(store: Store) {
    && IDsMatch(store.groups)
    && (forall id :: id in store.groups ==> id > 0)
    && Rooted(store.groups)
    && UniqueNames(store.groups)
    && (forall p :: p in store.memberships ==> store.memberships[p] <= store.groups.Keys)
  }

  lemma {:induction false} EndsOnce(groups: Groups, parent: Option<int>, n: nat, m: nat)
    requires EndsAfter(groups, parent, n) && EndsAfter(groups, parent, m)
    ensures n == m
    decreases n
  {
    if parent.Some? {
      EndsOnce(groups, groups[parent.value].parent, n - 1, m - 1);
    }
  }

  ghost predicate EndsBeyond(groups: Groups, id: int, n: nat) {
    exists m: nat :: m > n && EndsAfter(groups, Some(id), m)
  }

  // In a rooted store the resolution walk of a stored group never fails.
  lemma {:induction false} ChainSucceeds(groups: Groups, group: Group, visited: set<int>, n: nat)
    requires IDsMatch(groups) && group.id in groups && groups[group.id] == group
    requires EndsAfter(groups, Some(group.id), n)
    requires forall v :: v in visited ==> EndsBeyond(groups, v, n)
    ensures Chain(groups, group, visited).Ok?
    ensures forall i :: 0 <= i < |Chain(groups, group, visited).value| ==>
              Chain(groups, group, visited).value[i].id in groups
    decreases n
  {
    if group.id in visited {
      var m: nat :| m > n && EndsAfter(groups, Some(group.id), m);
      EndsOnce(groups, Some(group.id), n, m);
    }
    if group.parent.Some? {
      var p := group.parent.value;
      assert group.id in groups.Keys + {group.id} - visited;
      forall v | v in visited + {group.id} ensures EndsBeyond(groups, v, n - 1) {
        if v == group.id {
          assert EndsAfter(groups, Some(v), n);
        } else {
          var m: nat :| m > n && EndsAfter(groups, Some(v), m);
        }
      }
      assert EndsAfter(groups, groups[group.id].parent, n - 1) && groups[p].id == p;
      ChainSucceeds(groups, groups[p], visited + {group.id}, n - 1);
    }
  }

  lemma RootedResolves(groups: Groups, nodes: Listing, id: int, query: Node)
    requires IDsMatch(groups) && Rooted(groups) && id in groups
    ensures ResolveGroup(groups, nodes, groups[id], query).Ok?
  {
    var n: nat :| EndsAfter(groups, Some(id), n);
    ChainSucceeds(groups, groups[id], {}, n);
  }

  // ---------------------------------------------------------------- validation

  predicate FieldsOk(text: TextRules, g: Group) {
    && 1 <= |g.name| <= 40 && |g.prefix| <= 80 && |g.prefixColor| <= 32
    && |g.badgeURL| <= 2048 && text.badgeOk(g.badgeURL)
    && (g.roomEffect.Some? ==> g.roomEffect.value > 0)
  }

  // The walk over the would-be ancestors.
  function WalkParents(groups: Groups, parent: Option<int>, visited: set<int>): Option<Error>
    decreases groups.Keys - visited
  {
    match parent
    case None => None
    case Some(p) =>
      if p in visited then Some(InheritanceCycle)
      else if p !in groups then Some(GroupNotFound)
      else
        assert p in groups.Keys - visited;
        WalkParents(groups, groups[p].parent, visited + {p})
  }

  function ValidateGroup(text: TextRules, groups: Groups, g: Group, id: int): Option<Error> {
    if !FieldsOk(text, g) then Some(InvalidGroup)
    else if exists other :: other in groups && groups[other].name == g.name && other != id then Some(Conflict)
    else
      match g.parent
      case None => None
      case Some(p) => if p <= 0 || p == id then Some(InheritanceCycle) else WalkParents(groups, g.parent, {id})
  }

  // validateGroup as the loop the source runs; it always terminates.
  method Validate(text: TextRules, groups: Groups, g: Group, id: int) returns (err: Option<Error>)
    ensures err == ValidateGroup(text, groups, g, id)
  {
    if !FieldsOk(text, g) {
      return Some(InvalidGroup);
    }
    if exists other :: other in groups && groups[other].name == g.name && other != id {
      return Some(Conflict);
    }
    if g.parent.None? {
      return None;
    }
    if g.parent.value <= 0 || g.parent.value == id {
      return Some(InheritanceCycle);
    }
    var visited := {id};
    var parent := g.parent;
    while parent.Some?
      invariant WalkParents(groups, parent, visited) == WalkParents(groups, g.parent, {id})
      decreases groups.Keys - visited, parent.Some?
    {
      var p := parent.value;
      if p in visited {
        return Some(InheritanceCycle);
      }
      if p !in groups {
        return Some(GroupNotFound);
      }
      assert p in groups.Keys - visited;
      visited := visited + {p};
      parent := groups[p].parent;
    }
    err := None;
  }

  // ---------------------------------------------------------------- what validation accepts

  // The chain of parents ends after exactly n groups, none of which is the group id.
  ghost predicate EndsClear(groups: Groups, parent: Option<int>, id: int, n: nat)
    decreases n
  {
    match parent
    case None => n == 0
    case Some(p) => n > 0 && p != id && p in groups && EndsClear(groups, groups[p].parent, id, n - 1)
  }

  lemma {:induction false} ClearEnds(groups: Groups, parent: Option<int>, id: int, n: nat)
    requires EndsClear(groups, parent, id, n)
    ensures EndsAfter(groups, parent, n)
    decreases n
  {
    if parent.Some? {
      ClearEnds(groups, groups[parent.value].parent, id, n - 1);
    }
  }

  lemma {:induction false} WalkPasses(groups: Groups, parent: Option<int>, visited: set<int>, id: int, n: nat)
    requires EndsClear(groups, parent, id, n)
    requires forall v :: v in visited ==> v == id || EndsBeyond(groups, v, n)
    ensures WalkParents(groups, parent, visited).None?
    decreases n
  {
    ClearEnds(groups, parent, id, n);
    if parent.Some? {
      var p := parent.value;
      if p in visited {
        var m: nat :| m > n && EndsAfter(groups, Some(p), m);
        EndsOnce(groups, Some(p), n, m);
      }
      forall v | v in visited + {p} ensures v == id || EndsBeyond(groups, v, n - 1) {
        if v == p {
          assert EndsAfter(groups, Some(p), n);
        } else if v != id {
          var m: nat :| m > n && EndsAfter(groups, Some(v), m);
        }
      }
      WalkPasses(groups, groups[p].parent, visited + {p}, id, n - 1);
    }
  }

  lemma {:induction false} WalkClear(groups: Groups, parent: Option<int>, visited: set<int>, id: int) returns (n: nat)
    requires WalkParents(groups, parent, visited).None? && id in visited
    ensures EndsClear(groups, parent, id, n)
    decreases groups.Keys - visited
  {
    match parent
    case None => n := 0;
    case Some(p) =>
      assert p in groups.Keys - visited;
      var m := WalkClear(groups, groups[p].parent, visited + {p}, id);
      n := m + 1;
  }

  // Validation accepts a group exactly when its texts are within their limits, no other
  // group has its name, and its parents end at a root without passing through it.
  lemma ValidExactly(text: TextRules, groups: Groups, g: Group, id: int)
    requires forall x :: x in groups ==> x > 0
    ensures ValidateGroup(text, groups, g, id).None? <==>
      && 0 < |g.name| < 41 && |g.prefix| < 81 && |g.prefixColor| < 33 && |g.badgeURL| < 2049
      && text.badgeOk(g.badgeURL) && (g.roomEffect == None || 0 < g.roomEffect.value)
      && (forall x :: x in groups && x != id ==> groups[x].name != g.name)
      && exists n: nat :: EndsClear(groups, g.parent, id, n)
  {
    if WalkParents(groups, g.parent, {id}).None? {
      var n := WalkClear(groups, g.parent, {id}, id);
    }
    if n: nat :| EndsClear(groups, g.parent, id, n) {
      WalkPasses(groups, g.parent, {id}, id, n);
    }
    assert g.parent.None? ==> EndsClear(groups, g.parent, id, 0);
    if ValidateGroup(text, groups, g, id).None? {
      assert exists n: nat :: EndsClear(groups, g.parent, id, n);
    }
  }

  // A refusal names the first thing wrong; a parent that is there can only be part of a cycle.
  lemma RefusedBecause(text: TextRules, groups: Groups, g: Group, id: int)
    requires Rooted(groups)
    ensures var err := ValidateGroup(text, groups, g, id);
      && err in {None, Some(InvalidGroup), Some(Conflict), Some(GroupNotFound), Some(InheritanceCycle)}
      && (err == Some(InvalidGroup) <==> !FieldsOk(text, g))
      && (err == Some(Conflict) <==>
            FieldsOk(text, g) && exists x :: x in groups && x != id && groups[x].name == g.name)
      && (err == Some(GroupNotFound) <==>
            && FieldsOk(text, g) && (forall x :: x in groups && x != id ==> groups[x].name != g.name)
            && g.parent.Some? && g.parent.value > 0 && g.parent.value != id && g.parent.value !in groups)
  {
    if g.parent.Some? && g.parent.value in groups {
      var n: nat :| EndsAfter(groups, g.parent, n);
      WalkErrors(groups, g.parent, {id}, n);
    }
  }

  // From a parent that is there, in a rooted store, the walk meets no missing group.
  lemma {:induction false} WalkErrors(groups: Groups, parent: Option<int>, visited: set<int>, n: nat)
    requires EndsAfter(groups, parent, n)
    ensures WalkParents(groups, parent, visited) in {None, Some(InheritanceCycle)}
    decreases n
  {
    if parent.Some? && parent.value !in visited {
      assert parent.value in groups.Keys - visited;
      WalkErrors(groups, groups[parent.value].parent, visited + {parent.value}, n - 1);
    }
  }

  // ---------------------------------------------------------------- mutations

  datatype GroupPatch = GroupPatch(name: Option<string>, weight: Option<int>, prefix: Option<string>,
                                   prefixColor: Option<string>, badgeURL: Option<string>,
                                   roomEffect: Option<Option<int>>, parent: Option<Option<int>>)

  function Trimmed(text: TextRules, g: Group): Group {
    g.(name := text.trim(g.name), prefix := text.trim(g.prefix),
       prefixColor := text.trim(g.prefixColor), badgeURL := text.trim(g.badgeURL))
  }

  function Or<T>(change: Option<T>, current: T): T {
    if change.Some? then change.value else current
  }

  function Patched(text: TextRules, g: Group, patch: GroupPatch): Group {
    g.(name := if patch.name.Some? then text.trim(patch.name.value) else g.name,
       weight := Or(patch.weight, g.weight),
       prefix := if patch.prefix.Some? then text.trim(patch.prefix.value) else g.prefix,
       prefixColor := if patch.prefixColor.Some? then text.trim(patch.prefixColor.value) else g.prefixColor,
       badgeURL := if patch.badgeURL.Some? then text.trim(patch.badgeURL.value) else g.badgeURL,
       roomEffect := Or(patch.roomEffect, g.roomEffect),
       parent := Or(patch.parent, g.parent))
  }

  // Every field is what the patch says, trimmed where it is text, or what it was.
  lemma PatchedFields(text: TextRules, g: Group, patch: GroupPatch)
    ensures var p := Patched(text, g, patch);
      && p.id == g.id && p.version == g.version
      && p.name == (match patch.name case Some(s) => text.trim(s) case None => g.name)
      && p.weight == (match patch.weight case Some(w) => w case None => g.weight)
      && p.prefix == (match patch.prefix case Some(s) => text.trim(s) case None => g.prefix)
      && p.prefixColor == (match patch.prefixColor case Some(s) => text.trim(s) case None => g.prefixColor)
      && p.badgeURL == (match patch.badgeURL case Some(s) => text.trim(s) case None => g.badgeURL)
      && p.roomEffect == (match patch.roomEffect case Some(r) => r case None => g.roomEffect)
      && p.parent == (match patch.parent case Some(q) => q case None => g.parent)
  {
  }

  // The database picks an unused positive id and starts the version at one.
  function Created(text: TextRules, store: Store, params: Group, newID: int): Result<Store, Error> {
    var g := Trimmed(text, params);
    match ValidateGroup(text, store.groups, g, 0)
    case Some(e) => Err(e)
    case None => Ok(store.(groups := store.groups[newID := g.(id := newID, version := 1)]))
  }

  function Updated(text: TextRules, store: Store, id: int, patch: GroupPatch): Result<Store, Error> {
    if id !in store.groups then Err(GroupNotFound)
    else
      var g := Patched(text, store.groups[id], patch);
      match ValidateGroup(text, store.groups, g, id)
      case Some(e) => Err(e)
      case None => Ok(store.(groups := store.groups[id := g.(version := g.version + 1)]))
  }

  // A created group has the trimmed texts and nothing else of the store changes.
  lemma CreatedRecord(text: TextRules, store: Store, params: Group, newID: int)
    requires Created(text, store, params, newID).Ok?
    ensures var after := Created(text, store, params, newID).value;
      && after.groups.Keys == store.groups.Keys + {newID}
      && (forall x :: x in store.groups && x != newID ==> after.groups[x] == store.groups[x])
      && (after.groupNodes, after.memberships, after.playerNodes)
         == (store.groupNodes, store.memberships, store.playerNodes)
      && after.groups[newID] == Group(newID, text.trim(params.name), params.weight, text.trim(params.prefix),
                                      text.trim(params.prefixColor), text.trim(params.badgeURL), params.roomEffect,
                                      params.parent, 1)
  {
  }

  // A refusal changes nothing and is that of a missing group, or of the validation.
  lemma UpdateRefused(text: TextRules, store: Store, id: int, patch: GroupPatch, e: Error)
    ensures Updated(text, store, id, patch) == Err(e) <==>
      if id !in store.groups then e == GroupNotFound
      else ValidateGroup(text, store.groups, Patched(text, store.groups[id], patch), id) == Some(e)
  {
  }

  // An updated one has the next version; an update that changes nothing only raises it.
  lemma UpdatedRecord(text: TextRules, store: Store, id: int, patch: GroupPatch)
    requires Updated(text, store, id, patch).Ok?
    ensures var after := Updated(text, store, id, patch).value;
      && id in store.groups && after.groups.Keys == store.groups.Keys
      && (forall x :: x in store.groups && x != id ==> after.groups[x] == store.groups[x])
      && (after.groupNodes, after.memberships, after.playerNodes)
         == (store.groupNodes, store.memberships, store.playerNodes)
      && after.groups[id] == Patched(text, store.groups[id], patch).(version := store.groups[id].version + 1)
  {
  }

  // A successful walk shows that the new parent chain ends without touching the group.
  lemma {:induction false} WalkEnds(groups: Groups, groups': Groups, parent: Option<int>, visited: set<int>, id: int)
    requires WalkParents(groups, parent, visited).None? && id in visited
    requires forall x :: x in groups && x != id ==> x in groups' && groups'[x].parent == groups[x].parent
    ensures Ends(groups', parent)
    decreases groups.Keys - visited
  {
    match parent
    case None =>
      assert EndsAfter(groups', parent, 0);
    case Some(p) =>
      assert p in groups.Keys - visited;
      WalkEnds(groups, groups', groups[p].parent, visited + {p}, id);
      var n: nat :| EndsAfter(groups', groups[p].parent, n);
      assert EndsAfter(groups', parent, n + 1);
  }

  // Re-parenting one group to a chain that ends keeps every chain ending.
  lemma {:induction false} StillEnds(groups: Groups, groups': Groups, parent: Option<int>, n: nat, id: int)
    requires EndsAfter(groups, parent, n)
    requires id in groups' && Ends(groups', groups'[id].parent)
    requires forall x :: x in groups && x != id ==> x in groups' && groups'[x].parent == groups[x].parent
    ensures Ends(groups', parent)
    decreases n
  {
    match parent
    case None =>
      assert EndsAfter(groups', parent, 0);
    case Some(p) =>
      if p == id {
        var m: nat :| EndsAfter(groups', groups'[id].parent, m);
        assert EndsAfter(groups', parent, m + 1);
      } else {
        StillEnds(groups, groups', groups[p].parent, n - 1, id);
        var m: nat :| EndsAfter(groups', groups'[p].parent, m);
        assert EndsAfter(groups', parent, m + 1);
      }
  }

  // Writing a validated group, new or existing, keeps the whole graph rooted.
  lemma RootedAfterWrite(groups: Groups, id: int, g: Group, walked: int)
    requires Rooted(groups) && (walked == id || (walked !in groups && id !in groups))
    requires WalkParents(groups, g.parent, {walked}).None?
    ensures Rooted(groups[id := g])
  {
    var groups' := groups[id := g];
    WalkEnds(groups, groups', g.parent, {walked}, walked);
    forall x | x in groups' ensures Ends(groups', Some(x)) {
      if x == id {
        var n: nat :| EndsAfter(groups', g.parent, n);
        assert EndsAfter(groups', Some(id), n + 1);
      } else {
        var n: nat :| EndsAfter(groups, Some(x), n);
        StillEnds(groups, groups', Some(x), n, id);
      }
    }
  }

  // CreateGroup and UpdateGroup keep every store invariant; in particular no sequence of
  // them ever creates a cycle or a dangling parent.
  lemma CreatedOk(text: TextRules, store: Store, params: Group, newID: int)
    requires StoreOk(store) && newID > 0 && newID !in store.groups
    ensures var r := Created(text, store, params, newID); r.Ok? ==> StoreOk(r.value)
  {
    var g := Trimmed(text, params);
    if ValidateGroup(text, store.groups, g, 0).None? {
      RootedAfterWrite(store.groups, newID, g.(id := newID, version := 1), 0);
    }
  }

  lemma UpdatedOk(text: TextRules, store: Store, id: int, patch: GroupPatch)
    requires StoreOk(store)
    ensures var r := Updated(text, store, id, patch); r.Ok? ==> StoreOk(r.value)
  {
    if id in store.groups {
      var g := Patched(text, store.groups[id], patch);
      if ValidateGroup(text, store.groups, g, id).None? {
        RootedAfterWrite(store.groups, id, g.(version := g.version + 1), id);
      }
    }
  }

  // Any run of group mutations, failed ones included.
  datatype Mutation = Create(params: Group, newID: int) | Update(id: int, patch: GroupPatch)

  function Apply(text: TextRules, store: Store, m: Mutation): Store {
    var r := match m
      case Create(params, newID) =>
        if newID > 0 && newID !in store.groups then Created(text, store, params, newID) else Err(Conflict)
      case Update(id, patch) => Updated(text, store, id, patch);
    if r.Ok? then r.value else store
  }

  // What each mutation leaves: what the rules say, or, refused, what was there.
  lemma AppliedExactly(text: TextRules, store: Store, m: Mutation)
    ensures match m
      case Update(id, patch) =>
        Apply(text, store, m) == (match Updated(text, store, id, patch) case Ok(s) => s case Err(_) => store)
      case Create(params, newID) =>
        Apply(text, store, m)
        == if newID < 1 || newID in store.groups then store
           else match Created(text, store, params, newID) case Ok(s) => s case Err(_) => store
  {
  }

  function Run(text: TextRules, store: Store, ms: seq<Mutation>): Store {
    if ms == [] then store else Apply(text, Run(text, store, ms[..|ms| - 1]), ms[|ms| - 1])
  }

  const EMPTY := Store(map[], map[], map[], map[])

  // In every reachable store resolution of a stored group succeeds: neither the cycle nor
  // the missing-group error can come back.
  lemma {:induction false} ReachableOk(text: TextRules, ms: seq<Mutation>)
    ensures StoreOk(Run(text, EMPTY, ms))
  {
    if ms == [] {
    } else {
      var before, m := Run(text, EMPTY, ms[..|ms| - 1]), ms[|ms| - 1];
      ReachableOk(text, ms[..|ms| - 1]);
      match m
      case Create(params, newID) =>
        if newID > 0 && newID !in before.groups {
          CreatedOk(text, before, params, newID);
        }
      case Update(id, patch) => UpdatedOk(text, before, id, patch);
    }
  }

  lemma ReachableResolves(text: TextRules, ms: seq<Mutation>, id: int, query: Node)
    requires id in Run(text, EMPTY, ms).groups
    ensures var store := Run(text, EMPTY, ms);
      IDsMatch(store.groups)
      && ResolveGroup(store.groups, GroupListing(store), store.groups[id], query).Ok?
  {
    ReachableOk(text, ms);
    var store := Run(text, EMPTY, ms);
    RootedResolves(store.groups, GroupListing(store), id, query);
  }

  // ---------------------------------------------------------------- grants and memberships

  // A grant must name a registered node, or be a wildcard that covers one.
  predicate GrantNodeOk(registered: set<Node>, node: Node) {
    && ValidNode(node)
    && (node == WILDCARD || node in registered
        || (TrimSuffix(node, "." + WILDCARD) != node && exists r :: r in registered && Matches(node, r)))
  }

  function WithNode(nodes: map<int, map<Node, bool>>, holder: int, node: Node, allowed: bool)
    : map<int, map<Node, bool>>
  {
    nodes[holder := (if holder in nodes then nodes[holder] else map[])[node := allowed]]
  }

  function WithoutNode(nodes: map<int, map<Node, bool>>, holder: int, node: Node): map<int, map<Node, bool>> {
    if holder in nodes then nodes[holder := nodes[holder] - {node}] else nodes
  }

  function WithMember(memberships: map<int, set<int>>, player: int, group: int): map<int, set<int>> {
    memberships[player := (if player in memberships then memberships[player] else {}) + {group}]
  }

  function WithoutMember(memberships: map<int, set<int>>, player: int, group: int): map<int, set<int>> {
    if player in memberships then memberships[player := memberships[player] - {group}] else memberships
  }

  // After a grant the holder has the node with that flag; every other stored pair is as before.
  lemma NodeGranted(nodes: map<int, map<Node, bool>>, holder: int, node: Node, allowed: bool, h: int, n: Node)
    ensures var after := WithNode(nodes, holder, node, allowed);
      if h == holder && n == node then h in after && n in after[h] && after[h][n] == allowed
      else (h in after && n in after[h] <==> h in nodes && n in nodes[h])
           && (h in nodes && n in nodes[h] ==> after[h][n] == nodes[h][n])
  {
  }

  // After a revoke exactly that pair is gone.
  lemma NodeRevoked(nodes: map<int, map<Node, bool>>, holder: int, node: Node, h: int, n: Node)
    ensures var after := WithoutNode(nodes, holder, node);
      && (h in after && n in after[h] <==> h in nodes && n in nodes[h] && !(h == holder && n == node))
      && (h in after && n in after[h] ==> after[h][n] == nodes[h][n])
  {
  }

  lemma MemberAdded(memberships: map<int, set<int>>, player: int, group: int, p: int, g: int)
    ensures var after := WithMember(memberships, player, group);
      p in after && g in after[p] <==> (p in memberships && g in memberships[p]) || (p == player && g == group)
  {
  }

  lemma MemberRemoved(memberships: map<int, set<int>>, player: int, group: int, p: int, g: int)
    ensures var after := WithoutMember(memberships, player, group);
      p in after && g in after[p] <==> p in memberships && g in memberships[p] && !(p == player && g == group)
  {
  }

  // A group or player can be granted exactly "*", the registered nodes, and the valid
  // wildcards whose fixed segments begin a concrete registered node.
  lemma GrantNodeExactly(registered: set<Node>, node: Node)
    ensures GrantNodeOk(registered, node) <==>
      || node == "*"
      || (ValidNode(node) && node in registered)
      || (ValidNode(node) && Last(Split(node)) == "*"
          && exists r :: r in registered && Concrete(r) && Init(Split(node)) < Split(r))
  {
    Shortcuts(node);
    if ValidNode(node) && node != WILDCARD && node !in registered {
      WildcardShape(node);
      forall r | r in registered
        ensures Last(Split(node)) == "*" ==> (Matches(node, r) <==> Concrete(r) && Init(Split(node)) < Split(r))
      {
        if Concrete(r) {
          MatchesBySegments(node, r);
          ConcreteHasNoWildcard(r);
        }
      }
    }
  }

  // Group d is the given group or inherits from it.
  predicate Inherits(groups: Groups, d: int, ancestor: int)
    requires IDsMatch(groups)
  {
    d in groups
    && var r := Chain(groups, groups[d], {});
    r.Ok? && exists i :: 0 <= i < |r.value| && r.value[i].id == ancestor
  }

  // The members of a group and of all groups below it.
  function AffectedPlayers(store: Store, group: int): set<int>
    requires IDsMatch(store.groups)
  {
    set p | p in store.memberships && exists d :: d in store.memberships[p] && Inherits(store.groups, d, group)
  }

  lemma MembersAffected(store: Store, player: int, group: int)
    requires StoreOk(store) && player in store.memberships && group in store.memberships[player]
    ensures player in AffectedPlayers(store, group)
  {
    var n: nat :| EndsAfter(store.groups, Some(group), n);
    ChainSucceeds(store.groups, store.groups[group], {}, n);
    assert Chain(store.groups, store.groups[group], {}).value[0].id == group;
    assert Inherits(store.groups, group, group);
  }

  lemma {:induction false} SameChain(groups: Groups, group: Group, v: set<int>, w: set<int>)
    requires IDsMatch(groups) && Chain(groups, group, v).Ok? && Chain(groups, group, w).Ok?
    ensures Chain(groups, group, v) == Chain(groups, group, w)
    decreases groups.Keys + {group.id} - v
  {
    if group.parent.Some? {
      assert group.id in groups.Keys + {group.id} - v;
      SameChain(groups, groups[group.parent.value], v + {group.id}, w + {group.id});
    }
  }

  lemma ChainOk(groups: Groups, id: int)
    requires IDsMatch(groups) && Rooted(groups) && id in groups
    ensures Chain(groups, groups[id], {}).Ok?
  {
    var n: nat :| EndsAfter(groups, Some(id), n);
    ChainSucceeds(groups, groups[id], {}, n);
  }

  // A group inherits from itself and from what its parent inherits from.
  lemma InheritsStep(groups: Groups, d: int, ancestor: int)
    requires IDsMatch(groups) && Rooted(groups) && d in groups
    ensures groups[d].parent.Some? ==> groups[d].parent.value in groups
    ensures Inherits(groups, d, ancestor) <==>
      d == ancestor || (groups[d].parent.Some? && Inherits(groups, groups[d].parent.value, ancestor))
  {
    ChainOk(groups, d);
    var chain := Chain(groups, groups[d], {}).value;
    assert chain[0].id == d;
    if groups[d].parent.Some? {
      var p := groups[d].parent.value;
      ChainOk(groups, p);
      SameChain(groups, groups[p], {}, {} + {d});
      var above := Chain(groups, groups[p], {}).value;
      assert chain == [groups[d]] + above;
      forall i | 0 <= i < |above| ensures chain[i + 1] == above[i] {
      }
    }
  }

  // Affected by a group are its members and whoever is affected by a group right below it.
  lemma AffectedExactly(store: Store, group: int, player: int)
    requires StoreOk(store) && group in store.groups
    ensures player in AffectedPlayers(store, group) <==>
      player in store.memberships
      && (group in store.memberships[player]
          || exists d :: d in store.memberships[player] && d != group && store.groups[d].parent.Some?
                         && Inherits(store.groups, store.groups[d].parent.value, group))
  {
    hide Inherits, Rooted;
    if player in store.memberships {
      forall d | d in store.memberships[player]
        ensures store.groups[d].parent.Some? ==> store.groups[d].parent.value in store.groups
        ensures Inherits(store.groups, d, group) <==>
          d == group
          || (store.groups[d].parent.Some? && Inherits(store.groups, store.groups[d].parent.value, group))
      {
        InheritsStep(store.groups, d, group);
      }
    }
  }
}
