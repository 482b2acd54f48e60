// internal/permission/cache: the two-layer fragment cache and its invalidation.
module PermissionCache {
  import opened Wrappers
  import opened PermissionResolve
  import opened PermissionStore
  import Decimal

  datatype Kind = PlayerNodesKind | PlayerGroupsKind | GroupKind | GroupNodesKind

  datatype Key = Key(kind: Kind, id: int)

  // One cached fragment; Garbage is a value of the wrong type or unreadable JSON.
  datatype Fragment =
    | Grants(grants: seq<Grant>)
    | Members(groups: seq<Group>)
    | Record(group: Option<Group>)
    | Garbage

  datatype Entry = Entry(fragment: Fragment, expiresAt: int)

  const SWEEP_INTERVAL: nat := 256

  // ---------------------------------------------------------------- keys

  function Shared(key: Key): string {
    var id := Decimal.Format(key.id);
    match key.kind
    case PlayerNodesKind => "permission:player:" + id + ":nodes"
    case PlayerGroupsKind => "permission:player:" + id + ":groups"
    case GroupKind => "permission:group:" + id
    case GroupNodesKind => "permission:group:" + id + ":nodes"
  }

  lemma {:induction false} CutAtColon(a: string, b: string, x: string, y: string)
    requires ':' !in a && ':' !in b && a + ":" + x == b + ":" + y
    ensures a == b && x == y
    decreases |a|
  {
    var s, t := a + ":" + x, b + ":" + y;
    if a == "" || b == "" {
      assert s[0] == t[0];
      assert s[1..] == t[1..];
    } else {
      assert s[0] == a[0] && t[0] == b[0];
      assert s[1..] == a[1..] + ":" + x && t[1..] == b[1..] + ":" + y;
      CutAtColon(a[1..], b[1..], x, y);
      assert a == [a[0]] + a[1..] && b == [b[0]] + b[1..];
    }
  }

  // The part of a shared key after its family prefix.
  function Tail(key: Key): string {
    match key.kind
    case PlayerNodesKind => ":nodes"
    case PlayerGroupsKind => ":groups"
    case GroupKind => ""
    case GroupNodesKind => ":nodes"
  }

  lemma SharedShape(key: Key)
    ensures Shared(key) ==
      (if key.kind.PlayerNodesKind? || key.kind.PlayerGroupsKind? then "permission:player:" else "permission:group:")
      + (Decimal.Format(key.id) + Tail(key))
  {
  }

  lemma TailTells(a: Key, b: Key)
    requires Decimal.Format(a.id) + Tail(a) == Decimal.Format(b.id) + Tail(b)
    ensures a.id == b.id && Tail(a) == Tail(b)
  {
    var x, y := Decimal.Format(a.id), Decimal.Format(b.id);
    NoColonTail(x, y, Tail(a), Tail(b));
    NoColonTail(y, x, Tail(b), Tail(a));
    if Tail(a) != "" {
      assert x + Tail(a) == x + ":" + Tail(a)[1..] && y + Tail(b) == y + ":" + Tail(b)[1..];
      CutAtColon(x, y, Tail(a)[1..], Tail(b)[1..]);
    }
    assert Tail(a) == "" ==> x + Tail(a) == x && y + Tail(b) == y;
    Decimal.FormatInjective(a.id, b.id);
  }

  lemma NoColonTail(x: string, y: string, p: string, q: string)
    requires x + p == y + q && ':' !in x && (q != "" ==> q[0] == ':')
    ensures p == "" ==> q == ""
  {
    if q != "" {
      assert (y + q)[|y|] == ':';
      assert p == "" ==> x + p == x;
    }
  }

  // Different fragments never share a key in the shared store.
  lemma SharedInjective(a: Key, b: Key)
    requires Shared(a) == Shared(b)
    ensures a == b
  {
    SharedShape(a);
    SharedShape(b);
    var s := Shared(a);
    var p, q := "permission:player:", "permission:group:";
    var x, y := Decimal.Format(a.id) + Tail(a), Decimal.Format(b.id) + Tail(b);
    assert p[11] != q[11];
    if s == p + x {
      assert s[11] == p[11];
      assert s == p + y ==> s[|p|..] == x == y;
    } else {
      assert s[11] == q[11];
      assert s == q + y ==> s[|q|..] == x == y;
    }
    TailTells(a, b);
  }

  // ---------------------------------------------------------------- coherence

  // The fragment the store holds under a key.
  function Projection(store: Store, key: Key): Fragment
    requires IDsMatch(store.groups)
  {
    match key.kind
    case PlayerNodesKind => Grants(PlayerNodes(store, key.id))
    case PlayerGroupsKind => Members(PlayerGroups(store, key.id))
    case GroupKind => Record(if key.id in store.groups then Some(store.groups[key.id]) else None)
    case GroupNodesKind => Grants(GroupNodes(store, key.id))
  }

  // Whether a cached value has the type its key calls for.
  predicate Fits(key: Key, f: Fragment) {
    match key.kind
    case PlayerNodesKind => f.Grants?
    case PlayerGroupsKind => f.Members?
    case GroupKind => f.Record?
    case GroupNodesKind => f.Grants?
  }

  // Usable content of one slot is what the store holds.
  ghost predicate Right(store: Store, key: Key, f: Fragment)
    requires IDsMatch(store.groups)
  {
    Fits(key, f) ==> f == Projection(store, key)
  }

  ghost predicate Coherent(local: map<Key, Entry>, shared: map<string, Fragment>, store: Store) {
    && IDsMatch(store.groups)
    && (forall k :: k in local ==> Right(store, k, local[k].fragment))
    && (forall k: Key :: Shared(k) in shared ==> Right(store, k, shared[Shared(k)]))
  }

  // Some usable fragment is cached under the key, in one layer or the other.
  predicate Cached(local: map<Key, Entry>, shared: map<string, Fragment>, key: Key) {
    || (key in local && Fits(key, local[key].fragment))
    || SharedHit(shared, key)
  }

  predicate SharedHit(shared: map<string, Fragment>, key: Key) {
    Shared(key) in shared && Fits(key, shared[Shared(key)])
  }

  // No group is cached as missing.
  ghost predicate NoPhantoms(local: map<Key, Entry>, shared: map<string, Fragment>, store: Store) {
    forall k: Key :: k.kind.GroupKind? && k.id !in store.groups ==> !Cached(local, shared, k)
  }

  // After a write, dropping every fragment it may have changed restores coherence.
  lemma CoherentAfter(local: map<Key, Entry>, shared: map<string, Fragment>, store: Store,
                      local': map<Key, Entry>, shared': map<string, Fragment>, store': Store)
    requires Coherent(local, shared, store) && IDsMatch(store'.groups)
    requires forall k :: k in local' ==> k in local && local'[k] == local[k]
    requires forall s :: s in shared' ==> s in shared && shared'[s] == shared[s]
    requires forall k: Key :: k in local' || Shared(k) in shared' ==> Projection(store', k) == Projection(store, k)
    ensures Coherent(local', shared', store')
  {
  }

  // Time in milliseconds.
  type Duration = n: int | n > 0 witness 1

  const DEFAULT_LOCAL_TTL: Duration := 5000

  // The entries whose time has not come.
  function Unexpired(local: map<Key, Entry>, now: int): map<Key, Entry> {
    map k | k in local && now < local[k].expiresAt :: local[k]
  }

  // A sweep keeps exactly the entries that expire later than now.
  lemma SweepKeeps(local: map<Key, Entry>, now: int, k: Key)
    ensures k in Unexpired(local, now) <==> k in local && local[k].expiresAt >= now + 1
    ensures k in Unexpired(local, now) ==> Unexpired(local, now)[k] == local[k]
  {
  }

  // The local layer after a write, the writes-th: every 256th sweeps.
  function Stored(local: map<Key, Entry>, key: Key, entry: Entry, writes: nat, now: int): map<Key, Entry> {
    var all := local[key := entry];
    if writes % SWEEP_INTERVAL == 0 then Unexpired(all, now) else all
  }

  // After the writes-th write the entry is there with all others, but for the expired ones
  // if it was the 256th since the last sweep.
  lemma StoredExactly(local: map<Key, Entry>, key: Key, entry: Entry, writes: nat, now: int, k: Key)
    ensures var after := Stored(local, key, entry, writes, now);
      var kept := if k == key then entry else if k in local then local[k] else entry;
      && (k in after <==> (k == key || k in local) && (writes % 256 != 0 || kept.expiresAt > now))
      && (k in after ==> after[k] == kept)
  {
  }

  // A local read hits.
  predicate Hit(local: map<Key, Entry>, key: Key, now: int) {
    key in local && now < local[key].expiresAt && Fits(key, local[key].fragment)
  }

  lemma HitExactly(local: map<Key, Entry>, key: Key, now: int)
    ensures Hit(local, key, now) <==>
      key in local && local[key].expiresAt > now
      && if key.kind == PlayerGroupsKind then local[key].fragment.Members?
         else if key.kind == GroupKind then local[key].fragment.Record?
         else local[key].fragment.Grants?
  {
  }

  class Cache {
    const redis: bool
    const localTTL: Duration
    var local: map<Key, Entry>
    var shared: map<string, Fragment>
    var writes: nat

    ghost predicate CoherentWith(store: Store)
      reads this
    {
      Coherent(local, shared, store) && (!redis ==> shared == map[])
    }

    constructor (redis: bool, localTTL: int, ghost store: Store)
      requires IDsMatch(store.groups)
      ensures CoherentWith(store) && NoPhantoms(local, shared, store)
      ensures this.redis == redis && this.localTTL == (if localTTL > 0 then localTTL else 5000)
    {
      this.redis := redis;
      this.localTTL := if localTTL > 0 then localTTL else DEFAULT_LOCAL_TTL;
      local, shared, writes := map[], map[], 0;
    }

    method RemoveLocal(key: Key)
      modifies this`local
      ensures local == old(local) - {key}
    {
      local := local - {key};
    }

    // One typed local read; expired or ill-typed entries are removed on the way.
    method FindLocal(key: Key, now: int, ghost store: Store) returns (f: Fragment, found: bool)
      requires CoherentWith(store)
      modifies this`local
      ensures CoherentWith(store)
      ensures found <==> Hit(old(local), key, now)
      ensures found ==> f == old(local)[key].fragment == Projection(store, key) && local == old(local)
      ensures !found ==> local == old(local) - {key}
    {
      if key !in local {
        return Garbage, false;
      }
      var entry := local[key];
      if now >= entry.expiresAt {
        RemoveLocal(key);
        return Garbage, false;
      }
      if !Fits(key, entry.fragment) {
        RemoveLocal(key);
        return Garbage, false;
      }
      return entry.fragment, true;
    }

    // The sweep cannot take the entry just written, so a read soon after hits it.
    method StoreLocal(key: Key, f: Fragment, now: int, ghost store: Store)
      requires CoherentWith(store) && Right(store, key, f)
      modifies this`local, this`writes
      ensures CoherentWith(store)
      ensures writes == old(writes) + 1
      ensures local == Stored(old(local), key, Entry(f, now + localTTL), writes, now)
      ensures key in local && local[key] == Entry(f, now + localTTL)
    {
      local := local[key := Entry(f, now + localTTL)];
      writes := writes + 1;
      if writes % SWEEP_INTERVAL == 0 {
        SweepExpired(now, store);
      }
    }

    method SweepExpired(now: int, ghost store: Store)
      requires CoherentWith(store)
      modifies this`local
      ensures CoherentWith(store)
      ensures local == Unexpired(old(local), now)
    {
      local := Unexpired(local, now);
    }

    // Writes both layers; a failing shared write leaves the shared layer as it was.
    method Put(key: Key, f: Fragment, now: int, redisUp: bool, ghost store: Store)
      requires CoherentWith(store) && Right(store, key, f)
      modifies this
      ensures CoherentWith(store)
      ensures writes == old(writes) + 1
      ensures local == Stored(old(local), key, Entry(f, now + localTTL), writes, now)
      ensures key in local && local[key] == Entry(f, now + localTTL)
      ensures shared == if redis && redisUp then old(shared)[Shared(key) := f] else old(shared)
    {
      StoreLocal(key, f, now, store);
      if redis && redisUp {
        forall k: Key | Shared(k) == Shared(key) ensures k == key {
          SharedInjective(k, key);
        }
        shared := shared[Shared(key) := f];
      }
    }

    // load: local layer, then shared layer, then the store. Whatever is served equals the
    // store's own answer. A local hit changes nothing; otherwise the answer is stored
    // locally, and in the shared layer unless it came from there. A load of what the store
    // holds leaves no group cached as missing.
    method Load(store: Store, key: Key, now: int, redisUp: bool) returns (f: Fragment)
      requires CoherentWith(store)
      modifies this
      ensures CoherentWith(store) && f == Projection(store, key)
      ensures Hit(old(local), key, now) ==> local == old(local) && shared == old(shared) && writes == old(writes)
      ensures !Hit(old(local), key, now) ==>
                && writes == old(writes) + 1
                && local == Stored(old(local), key, Entry(f, now + localTTL), writes, now)
                && shared == if redis && redisUp && !SharedHit(old(shared), key)
                             then old(shared)[Shared(key) := f] else old(shared)
      ensures Hit(local, key, now)
      ensures old(NoPhantoms(local, shared, store)) && (key.kind.GroupKind? ==> key.id in store.groups) ==>
                NoPhantoms(local, shared, store)
    {
      hide Coherent, Right, Projection;
      FitsProjection(local, shared, store, key);
      var found;
      f, found := FindLocal(key, now, store);
      if found {
        return;
      }
      RemovedThenStored(old(local), key);
      if redis && redisUp && SharedHit(shared, key) {
        f := shared[Shared(key)];
        SharedRight(local, shared, store, key);
        StoreLocal(key, f, now, store);
        LoadAddsOne(old(local), old(shared), local, shared, store, key);
        return;
      }
      f := Projection(store, key);
      Put(key, f, now, redisUp, store);
      LoadAddsOne(old(local), old(shared), local, shared, store, key);
    }

    // delete: drops one fragment from both layers.
    method Delete(key: Key)
      modifies this`local, this`shared
      ensures local == old(local) - {key}
      ensures shared == if redis then old(shared) - {Shared(key)} else old(shared)
    {
      RemoveLocal(key);
      if redis {
        shared := shared - {Shared(key)};
      }
    }

    // The shared store may drop entries at any time.
    method ExpireShared(keys: set<string>, ghost store: Store)
      requires CoherentWith(store)
      modifies this`shared
      ensures CoherentWith(store) && shared == old(shared) - keys
    {
      shared := shared - keys;
    }
  }

  lemma FitsProjection(local: map<Key, Entry>, shared: map<string, Fragment>, store: Store, key: Key)
    requires Coherent(local, shared, store)
    ensures IDsMatch(store.groups) && Fits(key, Projection(store, key)) && Right(store, key, Projection(store, key))
  {
  }

  lemma SharedRight(local: map<Key, Entry>, shared: map<string, Fragment>, store: Store, key: Key)
    requires Coherent(local, shared, store) && SharedHit(shared, key)
    ensures shared[Shared(key)] == Projection(store, key)
  {
  }

  lemma RemovedThenStored(local: map<Key, Entry>, key: Key)
    ensures forall entry: Entry, writes: nat, now: int ::
      Stored(local - {key}, key, entry, writes, now) == Stored(local, key, entry, writes, now)
  {
    forall entry: Entry, writes: nat, now: int
      ensures Stored(local - {key}, key, entry, writes, now) == Stored(local, key, entry, writes, now)
    {
      assert (local - {key})[key := entry] == local[key := entry];
    }
  }

  // A load adds a fragment under its own key only.
  lemma LoadAddsOne(local: map<Key, Entry>, shared: map<string, Fragment>,
                    local': map<Key, Entry>, shared': map<string, Fragment>, store: Store, key: Key)
    requires forall k :: k in local' && k != key ==> k in local && local'[k] == local[k]
    requires forall s :: s in shared' && s != Shared(key) ==> s in shared && shared'[s] == shared[s]
    ensures NoPhantoms(local, shared, store) && (key.kind.GroupKind? ==> key.id in store.groups) ==>
      NoPhantoms(local', shared', store)
  {
    hide Fits, Shared;
    if NoPhantoms(local, shared, store) && (key.kind.GroupKind? ==> key.id in store.groups) {
      forall k: Key | k.kind.GroupKind? && k.id !in store.groups ensures !Cached(local', shared', k) {
        assert !Cached(local, shared, k);
        if Shared(k) == Shared(key) {
          SharedInjective(k, key);
        }
      }
    }
  }
}
