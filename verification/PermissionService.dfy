// internal/permission/service: resolution through the cache, and mutations that write the
// store and then invalidate.
module PermissionService {
  import opened Wrappers
  import opened PermissionNode
  import opened PermissionResolve
  import opened PermissionStore
  import opened PermissionCache

  // ---------------------------------------------------------------- cycle detection

  const SLOTS: nat := 16

  // The first sixteen ids sit in the array; from the seventeenth on, all sit in the map.
  ghost predicate Remembers(visited: seq<int>, overflow: Option<set<int>>, depth: nat, seen: set<int>) {
    && |visited| == SLOTS
    && (depth <= SLOTS ==> overflow == None && seen == set i | 0 <= i < depth :: visited[i])
    && (depth > SLOTS ==> overflow == Some(seen))
  }

  // The array-and-map bookkeeping reports a revisit exactly when a plain set would.
  method MarkVisited(visited: array<int>, overflow: Option<set<int>>, depth: nat, id: int, ghost seen: set<int>)
    returns (revisited: bool, overflow': Option<set<int>>)
    requires Remembers(visited[..], overflow, depth, seen)
    modifies visited
    ensures revisited <==> id in seen
    ensures !revisited ==> Remembers(visited[..], overflow', depth + 1, seen + {id})
  {
    overflow' := overflow;
    if depth < visited.Length {
      for i := 0 to depth
        invariant forall j :: 0 <= j < i ==> visited[j] != id
      {
        if visited[i] == id {
          return true, overflow;
        }
      }
      ghost var before := visited[..];
      visited[depth] := id;
      assert forall i :: 0 <= i < depth ==> visited[..][i] == before[i];
      assert seen + {id} == set i | 0 <= i < depth + 1 :: visited[..][i];
      return false, overflow;
    }
    var set0: set<int>;
    if overflow.None? {
      set0 := {};
      for i := 0 to visited.Length
        invariant set0 == set j | 0 <= j < i :: visited[j]
      {
        set0 := set0 + {visited[i]};
      }
      assert set0 == seen;
    } else {
      set0 := overflow.value;
    }
    if id in set0 {
      return true, Some(set0);
    }
    return false, Some(set0 + {id});
  }

  // ---------------------------------------------------------------- the answer

  const NO_DECISION := Decision(false, false, 0, 0, "")

  // Groups are asked in priority order; the first with any matching grant decides.
  function FirstGroup(store: Store, groups: seq<Group>, query: Node): Result<Decision, Error>
    requires IDsMatch(store.groups)
  {
    if groups == [] then Ok(NO_DECISION)
    else
      match ResolveGroup(store.groups, GroupListing(store), groups[0], query)
      case Err(e) => Err(e)
      case Ok(d) => if d.found then Ok(d.(source := groups[0].name)) else FirstGroup(store, groups[1..], query)
  }

  // What a permission check answers when it reads the store directly.
  function Resolved(store: Store, player: int, query: Node): Result<Decision, Error>
    requires IDsMatch(store.groups)
  {
    if player <= 0 then Err(InvalidPlayerID)
    else if !Concrete(query) then Err(InvalidNode)
    else
      var direct := BestGrant(PlayerNodes(store, player), query, 0, "player");
      if direct.found then Ok(direct) else FirstGroup(store, PlayerGroups(store, player), query)
  }

  // A check is refused exactly for a player or node that is none; in a valid store every
  // other check answers.
  lemma ResolvedRefused(store: Store, player: int, query: Node)
    requires StoreOk(store)
    ensures Resolved(store, player, query) == Err(InvalidPlayerID) <==> player < 1
    ensures Resolved(store, player, query) == Err(InvalidNode) <==> player >= 1 && !Concrete(query)
    ensures Resolved(store, player, query).Ok? <==> player >= 1 && Concrete(query)
  {
    if player >= 1 && Concrete(query) {
      var i, d := ResolvedMeaning(store, player, query);
    }
  }

  // The offers of one group: every matching grant on its whole chain.
  ghost function GroupOffers(store: Store, group: Group, query: Node): set<Decision>
    requires IDsMatch(store.groups)
  {
    match Chain(store.groups, group, {})
    case Ok(chain) => ChainOffers(GroupListing(store), chain, |chain|, query)
    case Err(_) => {}
  }

  ghost predicate SilentBefore(store: Store, groups: seq<Group>, query: Node, i: nat)
    requires IDsMatch(store.groups) && i <= |groups|
  {
    forall j :: 0 <= j < i ==> GroupOffers(store, groups[j], query) == {}
  }

  lemma OneGroup(store: Store, group: Group, query: Node)
    requires StoreOk(store) && group.id in store.groups && store.groups[group.id] == group
    ensures var r := ResolveGroup(store.groups, GroupListing(store), group, query);
      && r.Ok? && IsBest(GroupOffers(store, group, query), r.value)
      && (r.value.found <==> GroupOffers(store, group, query) != {})
  {
    RootedResolves(store.groups, GroupListing(store), group.id, query);
    var chain := Chain(store.groups, group, {}).value;
    BestInChainIsBest(GroupListing(store), chain, |chain|, query);
  }

  // Among the player's groups, index i is the first in priority order with any matching
  // grant on its chain, and d the best of those; i is past the end when no group has any.
  lemma {:induction false} FirstGroupMeaning(store: Store, groups: seq<Group>, query: Node)
    returns (i: nat, d: Decision)
    requires StoreOk(store)
    requires forall k :: 0 <= k < |groups| ==> groups[k].id in store.groups && store.groups[groups[k].id] == groups[k]
    ensures i <= |groups| && SilentBefore(store, groups, query, i)
    ensures i < |groups| ==>
              GroupOffers(store, groups[i], query) != {} && IsBest(GroupOffers(store, groups[i], query), d)
    ensures FirstGroup(store, groups, query)
         == Ok(if i < |groups| then d.(source := groups[i].name) else NO_DECISION)
  {
    hide Chain, GroupOffers, ResolveGroup, Rooted, IsBest;
    if groups == [] {
      return 0, NO_DECISION;
    }
    OneGroup(store, groups[0], query);
    var head := ResolveGroup(store.groups, GroupListing(store), groups[0], query).value;
    if head.found {
      return 0, head;
    }
    var rest := groups[1..];
    var k;
    k, d := FirstGroupMeaning(store, rest, query);
    i := k + 1;
    forall j | 0 <= j < i ensures GroupOffers(store, groups[j], query) == {} {
      if j > 0 {
        assert groups[j] == rest[j - 1];
      }
    }
  }

  // In a valid store every well-formed check answers: the best direct grant if the player
  // has any matching one, otherwise what the first deciding group says.
  lemma ResolvedMeaning(store: Store, player: int, query: Node) returns (i: nat, d: Decision)
    requires StoreOk(store) && player > 0 && Concrete(query)
    ensures var direct := Offers(PlayerNodes(store, player), query, 0, "player");
      var groups, out := PlayerGroups(store, player), Resolved(store, player, query);
      && out.Ok?
      && (direct != {} ==> IsBest(direct, out.value))
      && (direct == {} ==>
            && i <= |groups| && SilentBefore(store, groups, query, i)
            && (i == |groups| ==> !out.value.found)
            && (i < |groups| ==>
                  && GroupOffers(store, groups[i], query) != {}
                  && IsBest(GroupOffers(store, groups[i], query), d)
                  && out.value == d.(source := groups[i].name)))
  {
    BestGrantIsBest(PlayerNodes(store, player), query, 0, "player");
    i, d := FirstGroupMeaning(store, PlayerGroups(store, player), query);
    hide Chain, GroupOffers, StoreOk, BestGrant, FirstGroup, Concrete;
  }

  // A group's offers go before those of every lighter group, and on equal weight before
  // those of every later one.
  predicate GoesBefore(a: Group, b: Group) {
    a.weight > b.weight || (a.weight == b.weight && a.id < b.id)
  }

  // Without a matching direct grant the answer is that of the heaviest of the player's groups
  // with any matching grant on its chain, the first of them on a tie; without such a group
  // nothing is found.
  lemma HeaviestDecides(store: Store, player: int, query: Node)
    requires StoreOk(store) && player > 0 && Concrete(query)
    requires Offers(PlayerNodes(store, player), query, 0, "player") == {}
    ensures var out := Resolved(store, player, query);
      && out.Ok?
      && (!out.value.found ==>
            forall g :: MemberOf(store, player, g) ==> GroupOffers(store, store.groups[g], query) == {})
      && (out.value.found ==> exists g :: MemberOf(store, player, g) && Decides(store, player, query, g, out.value))
  {
    hide Chain, GroupOffers, BestGrant, FirstGroup, Concrete, Rooted, UniqueNames, IsBest, Ranked;
    var i, d := ResolvedMeaning(store, player, query);
    var groups := PlayerGroups(store, player);
    GroupsStored(store, player);
    forall g | MemberOf(store, player, g) && (i < |groups| ==> GoesBefore(store.groups[g], groups[i]))
      ensures GroupOffers(store, store.groups[g], query) == {}
    {
      var j := PlaceOf(store, player, g);
      if i <= j {
        if i < j {
          InPlayerOrder(store, player, i, j);
        }
        assert false;
      }
    }
    if i < |groups| {
      var g := groups[i].id;
      OffersFound(store, groups[i], query, d);
      assert MemberOf(store, player, g) && Decides(store, player, query, g, Resolved(store, player, query).value);
    }
  }

  lemma OffersFound(store: Store, group: Group, query: Node, d: Decision)
    requires IDsMatch(store.groups)
    requires GroupOffers(store, group, query) != {} && IsBest(GroupOffers(store, group, query), d)
    ensures d.found
  {
  }

  predicate MemberOf(store: Store, player: int, g: int) {
    player in store.memberships && g in store.memberships[player] && g in store.groups
  }

  // The answer is the best grant on the chain of g, and no group before g has any.
  ghost predicate Decides(store: Store, player: int, query: Node, g: int, answer: Decision)
    requires IDsMatch(store.groups) && g in store.groups
  {
    var group := store.groups[g];
    && GroupOffers(store, group, query) != {}
    && (exists d :: IsBest(GroupOffers(store, group, query), d) && answer == d.(source := group.name))
    && forall h :: MemberOf(store, player, h) && GoesBefore(store.groups[h], group) ==>
         GroupOffers(store, store.groups[h], query) == {}
  }

  lemma PlaceOf(store: Store, player: int, g: int) returns (j: nat)
    requires StoreOk(store) && MemberOf(store, player, g)
    ensures j < |PlayerGroups(store, player)| && PlayerGroups(store, player)[j] == store.groups[g]
  {
    j :| 0 <= j < |PlayerGroups(store, player)| && PlayerGroups(store, player)[j] == store.groups[g];
  }

  lemma InPlayerOrder(store: Store, player: int, i: nat, j: nat)
    requires StoreOk(store) && i < j < |PlayerGroups(store, player)|
    ensures GoesBefore(PlayerGroups(store, player)[i], PlayerGroups(store, player)[j])
  {
    RankedInOrder(store.groups, store.memberships[player] * store.groups.Keys, i, j);
  }

  // ---------------------------------------------------------------- walking a chain

  // Prefixing the part of the chain already walked.
  function After(walked: seq<Group>, r: Result<seq<Group>, Error>): Result<seq<Group>, Error> {
    match r
    case Ok(rest) => Ok(walked + rest)
    case Err(e) => Err(e)
  }

  lemma {:induction false} WalkedBest(nodes: Listing, walked: seq<Group>, rest: seq<Group>, k: nat, query: Node)
    requires k <= |walked|
    ensures BestInChain(nodes, walked + rest, k, query) == BestInChain(nodes, walked, k, query)
  {
    if k > 0 {
      WalkedBest(nodes, walked, rest, k - 1, query);
    }
  }

  // One step of the walk, from current to its parent.
  lemma WalkStep(groups: Groups, walked: seq<Group>, current: Group, seen: set<int>)
    requires IDsMatch(groups) && current.id !in seen
    ensures current.parent.None? ==> After(walked, Chain(groups, current, seen)) == Ok(walked + [current])
    ensures current.parent.Some? && current.parent.value in groups ==>
      After(walked, Chain(groups, current, seen))
      == After(walked + [current], Chain(groups, groups[current.parent.value], seen + {current.id}))
  {
    if current.parent.Some? && current.parent.value in groups {
      var rest := Chain(groups, groups[current.parent.value], seen + {current.id});
      if rest.Ok? {
        assert walked + ([current] + rest.value) == (walked + [current]) + rest.value;
      }
    }
  }

  lemma StoredParents(store: Store, group: Group)
    requires StoreOk(store) && group.id in store.groups && store.groups[group.id] == group
    ensures group.parent.Some? ==> group.parent.value in store.groups
  {
    var n: nat :| EndsAfter(store.groups, Some(group.id), n);
    assert EndsAfter(store.groups, group.parent, n - 1);
  }

  // ---------------------------------------------------------------- the service

  class Service {
    const cache: Cache
    var store: Store

    ghost predicate Valid()
      reads this, cache
    {
      StoreOk(store) && cache.CoherentWith(store) && NoPhantoms(cache.local, cache.shared, store)
    }

    constructor (redis: bool, localTTL: int)
      ensures Valid() && store == EMPTY
    {
      store := EMPTY;
      cache := new Cache(redis, localTTL, EMPTY);
    }

    // resolveGroup, reading every record and grant list through the cache.
    method ResolveChain(group: Group, query: Node, now: int, redisUp: bool) returns (r: Result<Decision, Error>)
      requires Valid() && group.id in store.groups && store.groups[group.id] == group
      modifies cache
      ensures Valid()
      ensures r == ResolveGroup(store.groups, GroupListing(store), group, query)
    {
      hide Remembers, Chain, BestInChain, BestGrant, After, Rooted, Coherent, Preferable, Ranked, UniqueNames;
      var visited := new int[SLOTS](_ => 0);
      var overflow: Option<set<int>> := None;
      var depth: nat := 0;
      var best := UNDECIDED;
      var current := group;
      ghost var walked: seq<Group>, seen: set<int> := [], {};
      NothingWalked(store, group, query, visited[..]);
      while true
        invariant Valid() && store == old(store)
        invariant current.id in store.groups && store.groups[current.id] == current
        invariant depth == |walked| && Remembers(visited[..], overflow, depth, seen)
        invariant Chain(store.groups, group, {}) == After(walked, Chain(store.groups, current, seen))
        invariant best == BestInChain(GroupListing(store), walked, depth, query)
        decreases store.groups.Keys - seen
      {
        var revisited;
        revisited, overflow := MarkVisited(visited, overflow, depth, current.id, seen);
        if revisited {
          RevisitFails(store.groups, walked, current, seen);
          return Err(InheritanceCycle);
        }
        var f := cache.Load(store, Key(GroupNodesKind, current.id), now, redisUp);
        var here := FindBestGrant(f.grants, query, depth, current.name);
        best := Preferable(best, here);
        WalkedStep(GroupListing(store), walked, current, query);
        WalkStep(store.groups, walked, current, seen);
        StoredParents(store, current);
        walked := walked + [current];
        if current.parent.None? {
          return Ok(best);
        }
        // The source also returns a not-found error; a stored group's parent is stored.
        var parent := cache.Load(store, Key(GroupKind, current.parent.value), now, redisUp);
        seen := seen + {current.id};
        current := parent.group.value;
        depth := depth + 1;
      }
    }

    // resolve: direct grants, then the player's groups in priority order. The answer is the
    // one a direct reading of the store gives.
    method Resolve(player: int, query: Node, now: int, redisUp: bool) returns (r: Result<Decision, Error>)
      requires Valid()
      modifies cache
      ensures Valid()
      ensures r == Resolved(store, player, query)
    {
      hide Chain, BestGrant, Rooted, Coherent, Ranked, UniqueNames, Concrete, ResolveGroup;
      if player <= 0 {
        return Err(InvalidPlayerID);
      }
      if !Concrete(query) {
        return Err(InvalidNode);
      }
      var own := cache.Load(store, Key(PlayerNodesKind, player), now, redisUp);
      var direct := FindBestGrant(own.grants, query, 0, "player");
      if direct.found {
        return Ok(direct);
      }
      var member := cache.Load(store, Key(PlayerGroupsKind, player), now, redisUp);
      var groups := member.groups;
      GroupsStored(store, player);
      assert groups[0..] == groups;
      for i := 0 to |groups|
        invariant Valid() && store == old(store)
        invariant FirstGroup(store, groups, query) == FirstGroup(store, groups[i..], query)
      {
        assert groups[i..][0] == groups[i] && groups[i..][1..] == groups[i + 1..];
        var resolved := ResolveChain(groups[i], query, now, redisUp);
        if resolved.Err? {
          return resolved;
        }
        if resolved.value.found {
          return Ok(resolved.value.(source := groups[i].name));
        }
      }
      r := Ok(NO_DECISION);
    }

    method HasPermission(player: int, query: Node, now: int, redisUp: bool) returns (r: Result<bool, Error>)
      requires Valid()
      modifies cache
      ensures Valid()
      ensures match Resolved(store, player, query)
        case Ok(d) => r == Ok(d.found && d.allowed)
        case Err(e) => r == Err(e)
    {
      var d := Resolve(player, query, now, redisUp);
      match d
      case Ok(v) => r := Ok(v.found && v.allowed);
      case Err(e) => r := Err(e);
    }

    // ---------------------------------------------------------------- mutations

    // CreateGroup invalidates nothing, and needs not to: a fragment for the new id can only
    // have been cached as missing, which no rooted store lets happen.
    method CreateGroup(text: TextRules, params: Group, newID: int) returns (err: Option<Error>)
      requires Valid() && newID > 0 && newID !in store.groups
      modifies this`store
      ensures Valid()
      ensures match Created(text, old(store), params, newID)
        case Ok(after) => err == None && store == after
        case Err(e) => err == Some(e) && store == old(store)
    {
      var g := Trimmed(text, params);
      err := Validate(text, store.groups, g, 0);
      if err.Some? {
        return;
      }
      CreatedOk(text, store, params, newID);
      store := store.(groups := store.groups[newID := g.(id := newID, version := 1)]);
      CreateKeepsCoherence(cache.local, cache.shared, old(store), store, newID);
    }

    // UpdateGroup drops the record, its grants and the memberships of every affected player.
    // The row read and the row written carry the same version, so the lock never conflicts
    // inside one atomic call.
    method UpdateGroup(text: TextRules, id: int, patch: GroupPatch) returns (err: Option<Error>)
      requires Valid()
      modifies this`store, cache
      ensures Valid()
      ensures match Updated(text, old(store), id, patch)
        case Ok(after) => err == None && store == after
        case Err(e) => err == Some(e) && store == old(store)
    {
      if id !in store.groups {
        return Some(GroupNotFound);
      }
      var g := Patched(text, store.groups[id], patch);
      err := Validate(text, store.groups, g, id);
      if err.Some? {
        return;
      }
      var affected := AffectedPlayers(store, id);
      UpdatedOk(text, store, id, patch);
      ReplaceGroup(id, g.(version := g.version + 1), affected);
    }

    method ReplaceGroup(id: int, group: Group, affected: set<int>)
      requires Valid() && id in store.groups && affected == AffectedPlayers(store, id)
      requires StoreOk(store.(groups := store.groups[id := group]))
      modifies this`store, cache
      ensures Valid() && store == old(store).(groups := old(store).groups[id := group])
    {
      hide StoreOk, Coherent, NoPhantoms, Dropped, OnlyGoneChanged, AffectedPlayers;
      ghost var before, local, shared := store, cache.local, cache.shared;
      store := store.(groups := store.groups[id := group]);
      DropNothing(local, shared);
      ghost var gone := DropGroup(id, {}, local, shared);
      gone := DropMemberships(affected, gone, local, shared);
      UpdateLocal(before, store, id, gone);
      WriteKeepsCoherence(local, shared, before, cache.local, cache.shared, store, gone);
    }

    method DropGroup(id: int, ghost gone: set<Key>, ghost local: map<Key, Entry>, ghost shared: map<string, Fragment>)
      returns (ghost gone': set<Key>)
      requires Dropped(local, shared, cache.local, cache.shared, gone) && (!cache.redis ==> shared == map[])
      modifies cache`local, cache`shared
      ensures Dropped(local, shared, cache.local, cache.shared, gone')
      ensures gone' == gone + {Key(GroupKind, id), Key(GroupNodesKind, id)}
    {
      gone' := Drop(Key(GroupKind, id), gone, local, shared);
      gone' := Drop(Key(GroupNodesKind, id), gone', local, shared);
    }

    method DropMemberships(players: set<int>, ghost gone: set<Key>, ghost local: map<Key, Entry>,
                           ghost shared: map<string, Fragment>) returns (ghost gone': set<Key>)
      requires Dropped(local, shared, cache.local, cache.shared, gone) && (!cache.redis ==> shared == map[])
      modifies cache`local, cache`shared
      ensures Dropped(local, shared, cache.local, cache.shared, gone')
      ensures forall k :: k in gone' <==> k in gone || (k.kind.PlayerGroupsKind? && k.id in players)
    {
      gone' := gone;
      var todo := players;
      while todo != {}
        invariant todo <= players
        invariant Dropped(local, shared, cache.local, cache.shared, gone')
        invariant forall k :: k in gone' <==> k in gone || (k.kind.PlayerGroupsKind? && k.id in players - todo)
        decreases todo
      {
        SomePlayer(todo);
        var p: int :| p in todo;
        gone' := Drop(Key(PlayerGroupsKind, p), gone', local, shared);
        todo := todo - {p};
      }
    }

    method Drop(key: Key, ghost gone: set<Key>, ghost local: map<Key, Entry>, ghost shared: map<string, Fragment>)
      returns (ghost gone': set<Key>)
      requires Dropped(local, shared, cache.local, cache.shared, gone) && (!cache.redis ==> shared == map[])
      modifies cache`local, cache`shared
      ensures Dropped(local, shared, cache.local, cache.shared, gone') && gone' == gone + {key}
    {
      cache.Delete(key);
      gone' := gone + {key};
    }

    method ChangeGroupNodes(id: int, nodes: map<int, map<Node, bool>>)
      requires Valid() && id in store.groups
      requires AgreeOff(nodes, store.groupNodes, id)
      modifies this`store, cache`local, cache`shared
      ensures Valid() && store == old(store).(groupNodes := nodes)
    {
      ghost var before, local, shared := store, cache.local, cache.shared;
      store := store.(groupNodes := nodes);
      DropNothing(local, shared);
      ghost var gone := DropGroup(id, {}, local, shared);
      NodesLocal(before, store, id, gone);
      WriteKeepsCoherence(local, shared, before, cache.local, cache.shared, store, gone);
    }

    method GrantGroupNode(registered: set<Node>, id: int, node: Node, allowed: bool) returns (err: Option<Error>)
      requires Valid()
      modifies this`store, cache`local, cache`shared
      ensures Valid()
      ensures err == GroupNodeError(registered, old(store), id, node)
      ensures store == if err.Some? then old(store)
                       else old(store).(groupNodes := WithNode(old(store).groupNodes, id, node, allowed))
    {
      err := GroupNodeError(registered, store, id, node);
      if err.None? {
        ChangeGroupNodes(id, WithNode(store.groupNodes, id, node, allowed));
      }
    }

    method RevokeGroupNode(registered: set<Node>, id: int, node: Node) returns (err: Option<Error>)
      requires Valid()
      modifies this`store, cache`local, cache`shared
      ensures Valid()
      ensures err == GroupNodeError(registered, old(store), id, node)
      ensures store == if err.Some? then old(store)
                       else old(store).(groupNodes := WithoutNode(old(store).groupNodes, id, node))
    {
      err := GroupNodeError(registered, store, id, node);
      if err.None? {
        ChangeGroupNodes(id, WithoutNode(store.groupNodes, id, node));
      }
    }

    method ChangeMemberships(player: int, memberships: map<int, set<int>>)
      requires Valid()
      requires AgreeOff(memberships, store.memberships, player)
      requires player in memberships ==> memberships[player] <= store.groups.Keys
      modifies this`store, cache`local, cache`shared
      ensures Valid() && store == old(store).(memberships := memberships)
    {
      ghost var before, local, shared := store, cache.local, cache.shared;
      store := store.(memberships := memberships);
      DropNothing(local, shared);
      ghost var gone := Drop(Key(PlayerGroupsKind, player), {}, local, shared);
      MembershipLocal(before, store, player, gone);
      WriteKeepsCoherence(local, shared, before, cache.local, cache.shared, store, gone);
    }

    method AddPlayerToGroup(player: int, group: int) returns (err: Option<Error>)
      requires Valid()
      modifies this`store, cache`local, cache`shared
      ensures Valid()
      ensures err == MembershipError(old(store), player, group)
      ensures store == if err.Some? then old(store)
                       else old(store).(memberships := WithMember(old(store).memberships, player, group))
    {
      err := MembershipError(store, player, group);
      if err.None? {
        ChangeMemberships(player, WithMember(store.memberships, player, group));
      }
    }

    method RemovePlayerFromGroup(player: int, group: int) returns (err: Option<Error>)
      requires Valid()
      modifies this`store, cache`local, cache`shared
      ensures Valid()
      ensures err == MembershipError(old(store), player, group)
      ensures store == if err.Some? then old(store)
                       else old(store).(memberships := WithoutMember(old(store).memberships, player, group))
    {
      err := MembershipError(store, player, group);
      if err.None? {
        ChangeMemberships(player, WithoutMember(store.memberships, player, group));
      }
    }

    // New players join the group named "member", when there is one.
    method AssignDefaultGroup(player: int) returns (err: Option<Error>)
      requires Valid()
      modifies this`store, cache`local, cache`shared
      ensures Valid()
      ensures err == None ==> (exists id :: (
        && id in old(store).groups && old(store).groups[id].name == "member"
        && store == old(store).(memberships := WithMember(old(store).memberships, player, id))))
      ensures err.Some? ==> store == old(store)
      ensures err.Some? <==>
        player <= 0 || forall id :: id in old(store).groups ==> old(store).groups[id].name != "member"
    {
      if player <= 0 {
        return Some(InvalidPlayerID);
      }
      if id :| id in store.groups && store.groups[id].name == "member" {
        err := AddPlayerToGroup(player, id);
      } else {
        err := Some(GroupNotFound);
      }
    }

    method ChangePlayerNodes(player: int, nodes: map<int, map<Node, bool>>)
      requires Valid()
      requires AgreeOff(nodes, store.playerNodes, player)
      modifies this`store, cache`local, cache`shared
      ensures Valid() && store == old(store).(playerNodes := nodes)
    {
      ghost var before, local, shared := store, cache.local, cache.shared;
      store := store.(playerNodes := nodes);
      DropNothing(local, shared);
      ghost var gone := Drop(Key(PlayerNodesKind, player), {}, local, shared);
      PlayerNodesLocal(before, store, player, gone);
      WriteKeepsCoherence(local, shared, before, cache.local, cache.shared, store, gone);
    }

    method GrantPlayerNode(registered: set<Node>, player: int, node: Node, allowed: bool) returns (err: Option<Error>)
      requires Valid()
      modifies this`store, cache`local, cache`shared
      ensures Valid()
      ensures err == PlayerNodeError(registered, player, node)
      ensures store == if err.Some? then old(store)
                       else old(store).(playerNodes := WithNode(old(store).playerNodes, player, node, allowed))
    {
      err := PlayerNodeError(registered, player, node);
      if err.None? {
        ChangePlayerNodes(player, WithNode(store.playerNodes, player, node, allowed));
      }
    }

    method RevokePlayerNode(registered: set<Node>, player: int, node: Node) returns (err: Option<Error>)
      requires Valid()
      modifies this`store, cache`local, cache`shared
      ensures Valid()
      ensures err == PlayerNodeError(registered, player, node)
      ensures store == if err.Some? then old(store)
                       else old(store).(playerNodes := WithoutNode(old(store).playerNodes, player, node))
    {
      err := PlayerNodeError(registered, player, node);
      if err.None? {
        ChangePlayerNodes(player, WithoutNode(store.playerNodes, player, node));
      }
    }
  }

  // ---------------------------------------------------------------- checks before writing

  function GroupNodeError(registered: set<Node>, store: Store, id: int, node: Node): Option<Error> {
    if id <= 0 then Some(InvalidGroupID)
    else if !GrantNodeOk(registered, node) then Some(InvalidNode)
    else if id !in store.groups then Some(GroupNotFound)
    else None
  }

  function MembershipError(store: Store, player: int, group: int): Option<Error> {
    if player <= 0 then Some(InvalidPlayerID)
    else if group <= 0 then Some(InvalidGroupID)
    else if group !in store.groups then Some(GroupNotFound)
    else None
  }

  function PlayerNodeError(registered: set<Node>, player: int, node: Node): Option<Error> {
    if player <= 0 then Some(InvalidPlayerID)
    else if !GrantNodeOk(registered, node) then Some(InvalidNode)
    else None
  }

  // A refusal names the first thing wrong, in the order of the checks.
  lemma GroupNodeRefused(registered: set<Node>, store: Store, id: int, node: Node)
    ensures var err := GroupNodeError(registered, store, id, node);
      && (err == None <==> id > 0 && GrantNodeOk(registered, node) && id in store.groups)
      && (err == Some(InvalidGroupID) <==> id < 1)
      && (err == Some(InvalidNode) <==> id > 0 && !GrantNodeOk(registered, node))
      && (err == Some(GroupNotFound) <==> id > 0 && GrantNodeOk(registered, node) && id !in store.groups)
  {
  }

  lemma MembershipRefused(store: Store, player: int, group: int)
    ensures var err := MembershipError(store, player, group);
      && (err == None <==> player > 0 && group > 0 && group in store.groups)
      && (err == Some(InvalidPlayerID) <==> player < 1)
      && (err == Some(InvalidGroupID) <==> player > 0 && group < 1)
      && (err == Some(GroupNotFound) <==> player > 0 && group > 0 && group !in store.groups)
  {
  }

  lemma PlayerNodeRefused(registered: set<Node>, player: int, node: Node)
    ensures var err := PlayerNodeError(registered, player, node);
      && (err == None <==> player > 0 && GrantNodeOk(registered, node))
      && (err == Some(InvalidPlayerID) <==> player < 1)
      && (err == Some(InvalidNode) <==> player > 0 && !GrantNodeOk(registered, node))
  {
  }

  // ---------------------------------------------------------------- granting and asking

  // After a grant the holder's list holds that grant and the others of other nodes.
  lemma GrantListed(store: Store, player: int, node: Node, allowed: bool, p: int, g: Grant)
    ensures var after := store.(playerNodes := WithNode(store.playerNodes, player, node, allowed));
      g in PlayerNodes(after, p) <==>
        if p == player && g.node == node then g.allowed == allowed else g in PlayerNodes(store, p)
  {
    var after := WithNode(store.playerNodes, player, node, allowed);
    NodeGranted(store.playerNodes, player, node, allowed, p, g.node);
    ListedGrants(if p in after then after[p] else map[], g);
    ListedGrants(if p in store.playerNodes then store.playerNodes[p] else map[], g);
  }

  // After a revoke exactly that node is gone from the holder's list.
  lemma RevokeListed(store: Store, player: int, node: Node, p: int, g: Grant)
    ensures var after := store.(playerNodes := WithoutNode(store.playerNodes, player, node));
      g in PlayerNodes(after, p) <==> g in PlayerNodes(store, p) && !(p == player && g.node == node)
  {
    var after := WithoutNode(store.playerNodes, player, node);
    NodeRevoked(store.playerNodes, player, node, p, g.node);
    ListedGrants(if p in after then after[p] else map[], g);
    ListedGrants(if p in store.playerNodes then store.playerNodes[p] else map[], g);
  }

  lemma GroupGrantListed(store: Store, id: int, node: Node, allowed: bool, i: int, g: Grant)
    ensures var after := store.(groupNodes := WithNode(store.groupNodes, id, node, allowed));
      g in GroupNodes(after, i) <==>
        if i == id && g.node == node then g.allowed == allowed else g in GroupNodes(store, i)
  {
    var after := WithNode(store.groupNodes, id, node, allowed);
    NodeGranted(store.groupNodes, id, node, allowed, i, g.node);
    ListedGrants(if i in after then after[i] else map[], g);
    ListedGrants(if i in store.groupNodes then store.groupNodes[i] else map[], g);
  }

  lemma GroupRevokeListed(store: Store, id: int, node: Node, i: int, g: Grant)
    ensures var after := store.(groupNodes := WithoutNode(store.groupNodes, id, node));
      g in GroupNodes(after, i) <==> g in GroupNodes(store, i) && !(i == id && g.node == node)
  {
    var after := WithoutNode(store.groupNodes, id, node);
    NodeRevoked(store.groupNodes, id, node, i, g.node);
    ListedGrants(if i in after then after[i] else map[], g);
    ListedGrants(if i in store.groupNodes then store.groupNodes[i] else map[], g);
  }

  // A direct grant of the very node asked for decides, whatever wildcards and groups say.
  lemma ExactGrantDecides(store: Store, player: int, node: Node, allowed: bool)
    requires IDsMatch(store.groups) && player > 0 && Concrete(node)
    requires forall g :: g in PlayerNodes(store, player) && g.node == node ==> g.allowed == allowed
    requires Grant(node, allowed) in PlayerNodes(store, player)
    ensures Resolved(store, player, node).Ok?
    ensures Resolved(store, player, node).value.found && Resolved(store, player, node).value.allowed == allowed
  {
    hide PlayerNodes, Concrete, Matches, FirstGroup, BestGrant;
    var grants := PlayerNodes(store, player);
    BestGrantIsBest(grants, node, 0, "player");
    MatchesItself(node);
    var own := Decision(true, allowed, Specificity(node, node), 0, "player");
    assert own in Offers(grants, node, 0, "player");
    var best := BestGrant(grants, node, 0, "player");
    var g :| g in grants && Specificity(g.node, node) >= 0
             && best == Decision(true, g.allowed, Specificity(g.node, node), 0, "player");
    assert !Beats(own, best);
    if g.node != node {
      ExactBeatsWildcards(g.node, node);
    }
  }

  lemma MatchesItself(node: Node)
    requires Concrete(node)
    ensures Matches(node, node) && Specificity(node, node) >= 0
  {
  }

  // Granting a concrete node and asking for it answers the flag that was granted.
  method GrantThenAsk(service: Service, registered: set<Node>, player: int, node: Node, allowed: bool, now: int,
                      redisUp: bool) returns (err: Option<Error>, answer: Result<bool, Error>)
    requires service.Valid()
    modifies service`store, service.cache
    ensures service.Valid() && err == PlayerNodeError(registered, player, node)
    ensures err.None? && Concrete(node) ==> answer == Ok(allowed)
  {
    ghost var before := service.store;
    err := service.GrantPlayerNode(registered, player, node, allowed);
    answer := service.HasPermission(player, node, now, redisUp);
    if err.None? && Concrete(node) {
      forall g: Grant ensures g in PlayerNodes(service.store, player) && g.node == node <==> g == Grant(node, allowed) {
        GrantListed(before, player, node, allowed, player, g);
      }
      ExactGrantDecides(service.store, player, node, allowed);
    }
  }

  // Revoking leaves no offer of the node, and asking answers what the other grants say.
  method RevokeThenAsk(service: Service, registered: set<Node>, player: int, node: Node, query: Node, now: int,
                       redisUp: bool) returns (err: Option<Error>, answer: Result<bool, Error>)
    requires service.Valid()
    modifies service`store, service.cache
    ensures service.Valid() && err == PlayerNodeError(registered, player, node)
    ensures err.None? ==> forall g :: g in PlayerNodes(service.store, player) ==> g.node != node
    ensures match Resolved(service.store, player, query)
      case Ok(d) => answer == Ok(d.found && d.allowed)
      case Err(e) => answer == Err(e)
  {
    ghost var before := service.store;
    err := service.RevokePlayerNode(registered, player, node);
    answer := service.HasPermission(player, query, now, redisUp);
    if err.None? {
      forall g | g in PlayerNodes(service.store, player) ensures g.node != node {
        RevokeListed(before, player, node, player, g);
      }
    }
  }

  // ---------------------------------------------------------------- invalidation is enough

  // The caches after dropping the fragments in gone, and possibly more.
  ghost predicate Dropped(local: map<Key, Entry>, shared: map<string, Fragment>,
                          local': map<Key, Entry>, shared': map<string, Fragment>, gone: set<Key>) {
    && (forall k :: k in local' ==> k in local && local'[k] == local[k] && k !in gone)
    && (forall s :: s in shared' ==> s in shared && shared'[s] == shared[s])
    && (forall k :: k in gone ==> Shared(k) !in shared')
  }

  ghost predicate AgreeOff<V>(a: map<int, V>, b: map<int, V>, id: int) {
    forall x :: x != id ==> (x in a <==> x in b) && (x in a ==> a[x] == b[x])
  }

  lemma DropNothing(local: map<Key, Entry>, shared: map<string, Fragment>)
    ensures Dropped(local, shared, local, shared, {})
  {
  }

  lemma SomePlayer(players: set<int>)
    requires players != {}
    ensures exists p: int :: p in players
  {
    assert (forall p: int :: p !in players) ==> players == {};
  }

  // The heart of every mutation: fragments not dropped still project the new store.
  ghost predicate OnlyGoneChanged(store: Store, store': Store, gone: set<Key>)
    requires IDsMatch(store.groups) && IDsMatch(store'.groups)
  {
    store'.groups.Keys == store.groups.Keys
    && forall k: Key :: k !in gone ==> Projection(store', k) == Projection(store, k)
  }

  lemma WriteKeepsCoherence(local: map<Key, Entry>, shared: map<string, Fragment>, store: Store,
                            local': map<Key, Entry>, shared': map<string, Fragment>, store': Store, gone: set<Key>)
    requires Coherent(local, shared, store) && IDsMatch(store'.groups)
    requires Dropped(local, shared, local', shared', gone) && OnlyGoneChanged(store, store', gone)
    ensures Coherent(local', shared', store')
    ensures NoPhantoms(local, shared, store) ==> NoPhantoms(local', shared', store')
    ensures shared == map[] ==> shared' == map[]
  {
    hide Projection, Shared;
    CoherentAfter(local, shared, store, local', shared', store');
    if shared == map[] {
      assert shared'.Keys == {};
    }
  }

  // Rewriting one group changes its record and the memberships of its members only.
  lemma UpdateLocal(store: Store, store': Store, id: int, gone: set<Key>)
    requires StoreOk(store) && StoreOk(store') && id in store.groups && id in store'.groups
    requires store' == store.(groups := store.groups[id := store'.groups[id]])
    requires Key(GroupKind, id) in gone
    requires forall p :: p in AffectedPlayers(store, id) ==> Key(PlayerGroupsKind, p) in gone
    ensures IDsMatch(store'.groups)
    ensures OnlyGoneChanged(store, store', gone)
  {
    forall k: Key | k !in gone ensures Projection(store', k) == Projection(store, k) {
      if k.kind.PlayerGroupsKind? {
        if k.id in store.memberships && id in store.memberships[k.id] {
          MembersAffected(store, k.id, id);
        }
        SameMembers(store, store', k.id);
      }
    }
  }

  lemma NodesLocal(store: Store, store': Store, id: int, gone: set<Key>)
    requires StoreOk(store) && store' == store.(groupNodes := store'.groupNodes)
    requires AgreeOff(store'.groupNodes, store.groupNodes, id)
    requires Key(GroupNodesKind, id) in gone
    ensures OnlyGoneChanged(store, store', gone)
  {
    hide Rooted, UniqueNames, Ranked, ListNodes;
    forall k: Key | k !in gone ensures Projection(store', k) == Projection(store, k) {
      assert k != Key(GroupNodesKind, id);
    }
  }

  lemma MembershipLocal(store: Store, store': Store, player: int, gone: set<Key>)
    requires StoreOk(store) && store' == store.(memberships := store'.memberships)
    requires AgreeOff(store'.memberships, store.memberships, player)
    requires Key(PlayerGroupsKind, player) in gone
    ensures OnlyGoneChanged(store, store', gone)
  {
    hide Rooted, UniqueNames, Ranked, ListNodes;
    forall k: Key | k !in gone ensures Projection(store', k) == Projection(store, k) {
      assert k != Key(PlayerGroupsKind, player);
    }
  }

  lemma PlayerNodesLocal(store: Store, store': Store, player: int, gone: set<Key>)
    requires StoreOk(store) && store' == store.(playerNodes := store'.playerNodes)
    requires AgreeOff(store'.playerNodes, store.playerNodes, player)
    requires Key(PlayerNodesKind, player) in gone
    ensures OnlyGoneChanged(store, store', gone)
  {
    hide Rooted, UniqueNames, Ranked, ListNodes;
    forall k: Key | k !in gone ensures Projection(store', k) == Projection(store, k) {
      assert k != Key(PlayerNodesKind, player);
    }
  }

  lemma GroupsStored(store: Store, player: int)
    requires StoreOk(store)
    ensures var groups := PlayerGroups(store, player);
      forall i :: 0 <= i < |groups| ==> groups[i].id in store.groups && store.groups[groups[i].id] == groups[i]
  {
  }

  // Records of members decide a membership fragment.
  lemma SameMembers(store: Store, store': Store, player: int)
    requires StoreOk(store) && StoreOk(store')
    requires store'.memberships == store.memberships
    requires forall id :: player in store.memberships && id in store.memberships[player] ==>
      store'.groups[id] == store.groups[id]
    ensures PlayerGroups(store', player) == PlayerGroups(store, player)
  {
    if player in store.memberships {
      var members := store.memberships[player];
      assert members * store.groups.Keys == members * store'.groups.Keys == members;
      RankedAgree(store.groups, store'.groups, members);
    }
  }

  // A new group changes the projection of its own record only.
  lemma CreateLocal(store: Store, store': Store, newID: int, k: Key)
    requires StoreOk(store) && StoreOk(store')
    requires newID !in store.groups && newID in store'.groups
    requires store' == store.(groups := store.groups[newID := store'.groups[newID]])
    ensures IDsMatch(store.groups) && IDsMatch(store'.groups)
    ensures k != Key(GroupKind, newID) ==> Projection(store', k) == Projection(store, k)
    ensures k == Key(GroupKind, newID) ==> Projection(store', k) != Projection(store, k)
  {
    if k.kind.PlayerGroupsKind? {
      SameMembers(store, store', k.id);
    }
  }

  // Which breaks the cache exactly when the group was cached as missing.
  lemma CreateKeepsCoherence(local: map<Key, Entry>, shared: map<string, Fragment>, store: Store, store': Store,
                             newID: int)
    requires Coherent(local, shared, store) && StoreOk(store) && StoreOk(store')
    requires newID !in store.groups && newID in store'.groups
    requires store' == store.(groups := store.groups[newID := store'.groups[newID]])
    ensures Coherent(local, shared, store') <==> !Cached(local, shared, Key(GroupKind, newID))
    ensures NoPhantoms(local, shared, store) ==> NoPhantoms(local, shared, store')
  {
    hide StoreOk, Projection, Shared, Fits;
    var key := Key(GroupKind, newID);
    CreateLocal(store, store', newID, key);
    forall k: Key ensures k != key ==> Projection(store', k) == Projection(store, k) {
      CreateLocal(store, store', newID, k);
    }
    forall k: Key | Shared(k) == Shared(key) ensures k == key {
      SharedInjective(k, key);
    }
  }

  lemma NothingWalked(store: Store, group: Group, query: Node, visited: seq<int>)
    requires IDsMatch(store.groups) && |visited| == SLOTS
    ensures Chain(store.groups, group, {}) == After([], Chain(store.groups, group, {}))
    ensures BestInChain(GroupListing(store), [], 0, query) == UNDECIDED
    ensures Remembers(visited, None, 0, {})
  {
    var r := Chain(store.groups, group, {});
    if r.Ok? {
      assert [] + r.value == r.value;
    }
  }

  lemma RevisitFails(groups: Groups, walked: seq<Group>, current: Group, seen: set<int>)
    requires IDsMatch(groups) && current.id in seen
    ensures After(walked, Chain(groups, current, seen)) == Err(InheritanceCycle)
  {
  }

  lemma WalkedStep(nodes: Listing, walked: seq<Group>, current: Group, query: Node)
    ensures BestInChain(nodes, walked + [current], |walked| + 1, query)
         == Preferable(BestInChain(nodes, walked, |walked|, query),
                       BestGrant(nodes(current.id), query, |walked|, current.name))
  {
    WalkedBest(nodes, walked, [current], |walked|, query);
  }
}
