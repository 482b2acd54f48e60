// internal/permission/service/resolve.go: choosing the deciding grant along an
// inheritance chain.
module PermissionResolve {
  import opened Wrappers
  import opened PermissionNode

  datatype Grant = Grant(node: Node, allowed: bool)

  // The fields of a group that resolution and mutation look at; version is the
  // optimistic lock.
  datatype Group = Group(id: int, name: string, weight: int, prefix: string, prefixColor: string,
                         badgeURL: string, roomEffect: Option<int>, parent: Option<int>, version: nat)

  datatype Decision = Decision(found: bool, allowed: bool, specificity: int, depth: nat, source: string)

  datatype Error =
    | InvalidPlayerID | InvalidGroupID | InvalidGroup | InvalidNode
    | GroupNotFound | Conflict | InheritanceCycle

  const UNDECIDED := Decision(false, false, -1, 0, "")

  // ---------------------------------------------------------------- precedence

  function Preferable(left: Decision, right: Decision): Decision {
    if !left.found then right
    else if !right.found then left
    else if left.specificity != right.specificity then
      (if left.specificity > right.specificity then left else right)
    else if left.depth != right.depth then
      (if left.depth < right.depth then left else right)
    else if !left.allowed then left
    else right
  }

  // Strict precedence: more fixed segments, then nearer ancestor, then deny.
  ghost predicate Beats(a: Decision, b: Decision) {
    || a.specificity > b.specificity
    || (a.specificity == b.specificity && a.depth < b.depth)
    || (a.specificity == b.specificity && a.depth == b.depth && !a.allowed && b.allowed)
  }

  // d is the unbeaten member of ds, or nothing was found.
  ghost predicate IsBest(ds: set<Decision>, d: Decision) {
    if ds == {} then !d.found
    else d in ds && forall e :: e in ds ==> !Beats(e, d)
  }

  ghost predicate AllFound(ds: set<Decision>) {
    forall d :: d in ds ==> d.found
  }

  // Decisions at one depth come from one group.
  ghost predicate SourceByDepth(ds: set<Decision>) {
    forall a, b :: a in ds && b in ds && a.depth == b.depth ==> a.source == b.source
  }

  // The winner depends only on the set of matching grants, so not on any order.
  lemma BestUnique(ds: set<Decision>, a: Decision, b: Decision)
    requires AllFound(ds) && SourceByDepth(ds) && ds != {}
    requires IsBest(ds, a) && IsBest(ds, b)
    ensures a == b
  {
  }

  lemma PreferableJoins(ds: set<Decision>, a: Decision, es: set<Decision>, b: Decision)
    requires AllFound(ds) && AllFound(es) && IsBest(ds, a) && IsBest(es, b)
    ensures IsBest(ds + es, Preferable(a, b))
  {
    if ds == {} {
      assert ds + es == es;
    } else if es == {} {
      assert ds + es == ds;
    }
  }

  // ---------------------------------------------------------------- one holder

  // The decisions offered by the matching grants of one holder.
  ghost function Offers(grants: seq<Grant>, query: Node, depth: nat, source: string): set<Decision> {
    set g | g in grants && Specificity(g.node, query) >= 0
      :: Decision(true, g.allowed, Specificity(g.node, query), depth, source)
  }

  function BestGrant(grants: seq<Grant>, query: Node, depth: nat, source: string): Decision {
    if grants == [] then UNDECIDED
    else
      var init, last := grants[..|grants| - 1], grants[|grants| - 1];
      var best, specificity := BestGrant(init, query, depth, source), Specificity(last.node, query);
      if specificity < 0 then best
      else Preferable(best, Decision(true, last.allowed, specificity, depth, source))
  }

  // bestGrant picks the best offer.
  lemma {:induction false} BestGrantIsBest(grants: seq<Grant>, query: Node, depth: nat, source: string)
    ensures IsBest(Offers(grants, query, depth, source), BestGrant(grants, query, depth, source))
  {
    hide Specificity, Preferable;
    if grants == [] {
    } else {
      var init, last := grants[..|grants| - 1], grants[|grants| - 1];
      BestGrantIsBest(init, query, depth, source);
      var specificity := Specificity(last.node, query);
      assert grants == init + [last];
      if specificity < 0 {
        assert Offers(grants, query, depth, source) == Offers(init, query, depth, source);
      } else {
        var offer := Decision(true, last.allowed, specificity, depth, source);
        assert Offers(grants, query, depth, source) == Offers(init, query, depth, source) + {offer};
        PreferableJoins(Offers(init, query, depth, source), BestGrant(init, query, depth, source), {offer}, offer);
      }
    }
  }

  // Listing the same grants in another order decides the same.
  lemma GrantOrderIrrelevant(a: seq<Grant>, b: seq<Grant>, query: Node, depth: nat, source: string)
    requires forall g :: g in a <==> g in b
    ensures BestGrant(a, query, depth, source) == BestGrant(b, query, depth, source)
  {
    BestGrantIsBest(a, query, depth, source);
    BestGrantIsBest(b, query, depth, source);
    var ds := Offers(a, query, depth, source);
    assert ds == Offers(b, query, depth, source);
    if ds != {} {
      BestUnique(ds, BestGrant(a, query, depth, source), BestGrant(b, query, depth, source));
    } else {
      NothingOffered(a, query, depth, source);
      NothingOffered(b, query, depth, source);
    }
  }

  lemma {:induction false} NothingOffered(grants: seq<Grant>, query: Node, depth: nat, source: string)
    ensures !BestGrant(grants, query, depth, source).found ==> BestGrant(grants, query, depth, source) == UNDECIDED
  {
    if grants != [] {
      NothingOffered(grants[..|grants| - 1], query, depth, source);
    }
  }

  method FindBestGrant(grants: seq<Grant>, query: Node, depth: nat, source: string) returns (best: Decision)
    ensures best == BestGrant(grants, query, depth, source)
  {
    best := UNDECIDED;
    for i := 0 to |grants|
      invariant best == BestGrant(grants[..i], query, depth, source)
    {
      var grant := grants[i];
      assert grants[..i + 1][..i] == grants[..i];
      var specificity := Specificity(grant.node, query);
      if specificity < 0 {
        continue;
      }
      var candidate := Decision(true, grant.allowed, specificity, depth, source);
      best := Preferable(best, candidate);
    }
    assert grants[..|grants|] == grants;
  }

  // ---------------------------------------------------------------- the chain

  type Groups = map<int, Group>

  ghost predicate IDsMatch(groups: Groups) {
    forall id :: id in groups ==> groups[id].id == id
  }

  // The group and its ancestors, nearest first, watched by a plain visited set.
  function Chain(groups: Groups, group: Group, visited: set<int>): Result<seq<Group>, Error>
    requires IDsMatch(groups)
    decreases groups.Keys + {group.id} - visited
  {
    if group.id in visited then Err(InheritanceCycle)
    else
      match group.parent
      case None => Ok([group])
      case Some(p) =>
        if p !in groups then Err(GroupNotFound)
        else
          assert group.id in groups.Keys + {group.id} - visited;
          match Chain(groups, groups[p], visited + {group.id})
          case Ok(rest) => Ok([group] + rest)
          case Err(e) => Err(e)
  }

  // A walk that does not end fails at the first group it has seen before, or at the first
  // parent that is not there.
  lemma ChainFails(groups: Groups, group: Group, visited: set<int>)
    requires IDsMatch(groups)
    ensures var r := Chain(groups, group, visited);
      && (group.id in visited ==> r == Err(InheritanceCycle))
      && (group.id !in visited && group.parent.None? ==> r == Ok([group]))
      && (group.id !in visited && group.parent.Some? && group.parent.value !in groups ==> r == Err(GroupNotFound))
      && (group.id !in visited && group.parent.Some? && group.parent.value in groups ==>
            var above := Chain(groups, groups[group.parent.value], visited + {group.id});
            r == if above.Err? then above else Ok([group] + above.value))
  {
  }

  type Listing = int -> seq<Grant>

  // Every matching grant on the chain, at its distance.
  ghost function ChainOffers(nodes: Listing, chain: seq<Group>, k: nat, query: Node): set<Decision>
    requires k <= |chain|
  {
    set i, d | 0 <= i < k && d in Offers(nodes(chain[i].id), query, i, chain[i].name) :: d
  }

  function BestInChain(nodes: Listing, chain: seq<Group>, k: nat, query: Node): Decision
    requires k <= |chain|
  {
    if k == 0 then UNDECIDED
    else Preferable(BestInChain(nodes, chain, k - 1, query),
                    BestGrant(nodes(chain[k - 1].id), query, k - 1, chain[k - 1].name))
  }

  // Resolution along the chain is the lexicographic best over all its matching grants.
  lemma {:induction false} BestInChainIsBest(nodes: Listing, chain: seq<Group>, k: nat, query: Node)
    requires k <= |chain|
    ensures IsBest(ChainOffers(nodes, chain, k, query), BestInChain(nodes, chain, k, query))
    ensures AllFound(ChainOffers(nodes, chain, k, query)) && SourceByDepth(ChainOffers(nodes, chain, k, query))
  {
    hide Specificity, Preferable;
    if k == 0 {
    } else {
      var id, name := chain[k - 1].id, chain[k - 1].name;
      BestInChainIsBest(nodes, chain, k - 1, query);
      BestGrantIsBest(nodes(id), query, k - 1, name);
      var before, here := ChainOffers(nodes, chain, k - 1, query), Offers(nodes(id), query, k - 1, name);
      assert ChainOffers(nodes, chain, k, query) == before + here;
      PreferableJoins(before, BestInChain(nodes, chain, k - 1, query), here, BestGrant(nodes(id), query, k - 1, name));
    }
  }

  // What resolving one group yields.
  function ResolveGroup(groups: Groups, nodes: Listing, group: Group, query: Node): Result<Decision, Error>
    requires IDsMatch(groups)
  {
    match Chain(groups, group, {})
    case Ok(chain) => Ok(BestInChain(nodes, chain, |chain|, query))
    case Err(e) => Err(e)
  }
}
