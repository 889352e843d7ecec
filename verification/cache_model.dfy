/** What one critical section of the in-memory deduplication cache does to its two structures. */
module CacheModel {
  import opened Orders

  type Key = string

  datatype Config = Config(maxSize: nat, enableLRU: bool)

  /** `entries` maps a key to its expiry; `accessOrder` lists keys from the least recently used. */
  datatype CacheState = CacheState(entries: map<Key, int>, accessOrder: seq<Key>)

  datatype Answer = Absent | Stale | Hit

  const EMPTY := CacheState(map[], [])

  /** The time to live the processors give every mark: 24 hours, in nanoseconds. */
  const TTL: int := 86_400_000_000_000

  /** `now.After(expiresAt)`: an entry is still live at the very instant it expires. */
  predicate Expired(expiresAt: int, now: int) {
    now > expiresAt
  }

  /** A cache of size 0 still holds the entry it was last given. */
  function Capacity(maxSize: nat): nat {
    if maxSize == 0 then 1 else maxSize
  }

  /** The read section of IsProcessed; only Hit is reported as processed. */
  function Lookup(s: CacheState, key: Key, now: int): Answer {
    if key !in s.entries then Absent else if Expired(s.entries[key], now) then Stale else Hit
  }

  /** The section that drops a key found expired; it does not look at the expiry again. */
  function Deleted(cfg: Config, s: CacheState, key: Key): CacheState {
    CacheState(s.entries - {key}, if cfg.enableLRU then RemoveFirst(s.accessOrder, key) else s.accessOrder)
  }

  /** The section that makes a key the most recently used one, whether or not it still has an entry. */
  function Touched(cfg: Config, s: CacheState, key: Key): CacheState {
    if cfg.enableLRU then s.(accessOrder := RemoveFirst(s.accessOrder, key) + [key]) else s
  }

  /** All of IsProcessed when no other call runs between its two sections. */
  function Queried(cfg: Config, s: CacheState, key: Key, now: int): CacheState {
    match Lookup(s, key, now)
    case Absent => s
    case Stale => Deleted(cfg, s, key)
    case Hit => Touched(cfg, s, key)
  }

  /** Making room: map iteration order decides the victim when LRU is off. */
  ghost predicate Evicted(cfg: Config, s: CacheState, now: int, s': CacheState) {
    if |s.entries| < cfg.maxSize then s' == s
    else if cfg.enableLRU then
      s' == if s.accessOrder == [] then s else CacheState(s.entries - {s.accessOrder[0]}, s.accessOrder[1..])
    else if s.entries == map[] then s' == s
    else
      exists victim | victim in s.entries ::
        && s' == s.(entries := s.entries - {victim})
        && (Expired(s.entries[victim], now) || forall k | k in s.entries :: !Expired(s.entries[k], now))
  }

  function Stored(cfg: Config, s: CacheState, key: Key, expiresAt: int): CacheState {
    Touched(cfg, s.(entries := s.entries[key := expiresAt]), key)
  }

  /** MarkProcessed: eviction looks at the size only, so it happens even when `key` is already present. */
  ghost predicate Marked(cfg: Config, s: CacheState, key: Key, now: int, expiresAt: int, s': CacheState) {
    exists room :: Evicted(cfg, s, now, room) && s' == Stored(cfg, room, key, expiresAt)
  }

  function ExpiredKeys(s: CacheState, now: int): set<Key> {
    set k | k in s.entries && Expired(s.entries[k], now)
  }

  function Swept(cfg: Config, s: CacheState, dead: set<Key>): CacheState {
    CacheState(s.entries - dead, if cfg.enableLRU then Without(s.accessOrder, dead) else s.accessOrder)
  }

  /** One cleanup tick. */
  function Cleaned(cfg: Config, s: CacheState, now: int): CacheState {
    Swept(cfg, s, ExpiredKeys(s, now))
  }

  /** Deleting one more expired key: the step of the cleanup loop. */
  lemma SweptOneMore(cfg: Config, s: CacheState, dead: set<Key>, key: Key)
    requires cfg.enableLRU ==> NoDup(s.accessOrder)
    ensures Deleted(cfg, Swept(cfg, s, dead), key) == Swept(cfg, s, dead + {key})
  {
    assert (s.entries - dead) - {key} == s.entries - (dead + {key});
    if cfg.enableLRU { WithoutOneMore(s.accessOrder, dead, key); }
  }

  /** The two structures agree, as they do whenever calls do not overlap. */
  ghost predicate InSync(cfg: Config, s: CacheState) {
    && |s.entries| <= Capacity(cfg.maxSize)
    && (cfg.enableLRU ==> NoDup(s.accessOrder) && Elems(s.accessOrder) == s.entries.Keys)
  }

  /** With LRU on, MarkProcessed is a function of the state. */
  function LruMarked(maxSize: nat, s: CacheState, key: Key, expiresAt: int): CacheState {
    var room :=
      if |s.entries| < maxSize || s.accessOrder == [] then s
      else CacheState(s.entries - {s.accessOrder[0]}, s.accessOrder[1..]);
    Stored(Config(maxSize, true), room, key, expiresAt)
  }

  lemma LruMarkedIsMarked(maxSize: nat, s: CacheState, key: Key, now: int, expiresAt: int, s': CacheState)
    ensures Marked(Config(maxSize, true), s, key, now, expiresAt, s') <==> s' == LruMarked(maxSize, s, key, expiresAt)
  {
    var room :=
      if |s.entries| < maxSize || s.accessOrder == [] then s
      else CacheState(s.entries - {s.accessOrder[0]}, s.accessOrder[1..]);
    assert Evicted(Config(maxSize, true), s, now, room);
  }

  lemma EntriesMinusSize(m: map<Key, int>, k: Key)
    ensures |m - {k}| == if k in m then |m| - 1 else |m|
  {
    assert (m - {k}).Keys == m.Keys - {k};
    assert |m.Keys| == |m| && |(m - {k}).Keys| == |m - {k}|;
    if k in m { assert m.Keys == (m.Keys - {k}) + {k}; } else { assert m.Keys - {k} == m.Keys; }
  }

  lemma EntriesPlusSize(m: map<Key, int>, k: Key, v: int)
    ensures |m[k := v]| == if k in m then |m| else |m| + 1
  {
    assert m[k := v].Keys == m.Keys + {k};
    assert |m.Keys| == |m| && |m[k := v].Keys| == |m[k := v]|;
    if k in m { assert m.Keys + {k} == m.Keys; }
  }

  lemma TouchedOrder(order: seq<Key>, key: Key)
    requires NoDup(order)
    ensures NoDup(RemoveFirst(order, key) + [key])
    ensures Elems(RemoveFirst(order, key) + [key]) == Elems(order) + {key}
  {
    RemoveFirstNoDup(order, key);
    assert key !in Elems(RemoveFirst(order, key));
  }

  lemma EvictedOrder(order: seq<Key>)
    requires NoDup(order) && order != []
    ensures NoDup(order[1..]) && Elems(order[1..]) == Elems(order) - {order[0]}
  {
    assert order == [order[0]] + order[1..];
    assert order[0] !in order[1..];
  }

  /** A query keeps the structures in agreement. */
  lemma QueriedInSync(cfg: Config, s: CacheState, key: Key, now: int)
    requires InSync(cfg, s)
    ensures InSync(cfg, Queried(cfg, s, key, now))
  {
    EntriesMinusSize(s.entries, key);
    if cfg.enableLRU {
      RemoveFirstNoDup(s.accessOrder, key);
      TouchedOrder(s.accessOrder, key);
    }
  }

  /** A query is a hit for a key whose expiry is not before `now`; otherwise it drops that key, if it has an
      entry, and nothing else. */
  lemma QueriedExactly(cfg: Config, s: CacheState, key: Key, now: int)
    ensures Lookup(s, key, now) == Hit <==> key in s.entries && now <= s.entries[key]
    ensures Queried(cfg, s, key, now).entries == if Lookup(s, key, now) == Hit then s.entries else s.entries - {key}
  {
  }

  lemma {:induction false} EvictedMakesRoom(cfg: Config, s: CacheState, now: int, room: CacheState)
    requires InSync(cfg, s) && Evicted(cfg, s, now, room)
    ensures InSync(cfg, room) && |room.entries| < Capacity(cfg.maxSize)
  {
    if |s.entries| < cfg.maxSize {
    } else if cfg.enableLRU {
      if s.accessOrder == [] {
        assert s.entries.Keys == {};
      } else {
        var oldest := s.accessOrder[0];
        assert oldest in Elems(s.accessOrder);
        EvictedOrder(s.accessOrder);
        EntriesMinusSize(s.entries, oldest);
        assert (s.entries - {oldest}).Keys == s.entries.Keys - {oldest};
      }
    } else if s.entries != map[] {
      var victim :| victim in s.entries && room == s.(entries := s.entries - {victim});
      EntriesMinusSize(s.entries, victim);
    }
  }

  lemma StoredInSync(cfg: Config, room: CacheState, key: Key, expiresAt: int)
    requires InSync(cfg, room) && |room.entries| < Capacity(cfg.maxSize)
    ensures InSync(cfg, Stored(cfg, room, key, expiresAt))
  {
    EntriesPlusSize(room.entries, key, expiresAt);
    assert room.entries[key := expiresAt].Keys == room.entries.Keys + {key};
    if cfg.enableLRU { TouchedOrder(room.accessOrder, key); }
  }

  /** So does a mark, in either mode and whatever entry it evicts. */
  lemma {:induction false} MarkedInSync(cfg: Config, s: CacheState, key: Key, now: int, expiresAt: int, s': CacheState)
    requires InSync(cfg, s) && Marked(cfg, s, key, now, expiresAt, s')
    ensures InSync(cfg, s') && key in s'.entries && s'.entries[key] == expiresAt
  {
    var room :| Evicted(cfg, s, now, room) && s' == Stored(cfg, room, key, expiresAt);
    EvictedMakesRoom(cfg, s, now, room);
    StoredInSync(cfg, room, key, expiresAt);
  }

  /** In either mode a mark makes the cache smaller by one entry at most. */
  lemma MarkDropsAtMostOne(cfg: Config, s: CacheState, key: Key, now: int, expiresAt: int, s': CacheState)
    requires Marked(cfg, s, key, now, expiresAt, s')
    ensures |s'.entries| >= |s.entries| - 1 && s'.entries.Keys <= s.entries.Keys + {key}
  {
    var room :| Evicted(cfg, s, now, room) && s' == Stored(cfg, room, key, expiresAt);
    EntriesPlusSize(room.entries, key, expiresAt);
    if room != s {
      if cfg.enableLRU {
        EntriesMinusSize(s.entries, s.accessOrder[0]);
      } else {
        var victim :| victim in s.entries && room == s.(entries := s.entries - {victim});
        EntriesMinusSize(s.entries, victim);
      }
    }
  }

  /** With LRU off a mark drops at most one other key. It is one found expired if there is one, and every
      other entry keeps its expiry. */
  lemma PlainMarkDropsOne(cfg: Config, s: CacheState, key: Key, now: int, expiresAt: int, s': CacheState)
    requires !cfg.enableLRU && Marked(cfg, s, key, now, expiresAt, s')
    ensures key in s'.entries && s'.entries[key] == expiresAt
    ensures forall k | k in s'.entries && k != key :: k in s.entries && s'.entries[k] == s.entries[k]
    ensures |s.entries| < cfg.maxSize ==> forall k | k in s.entries :: k in s'.entries
    ensures forall j, k | j in s.entries && k in s.entries && j != key && k != key ::
              j !in s'.entries && k !in s'.entries ==> j == k
    ensures forall k | k in s.entries && k != key && k !in s'.entries && now <= s.entries[k] ::
              forall j | j in s.entries :: now <= s.entries[j]
  {
  }

  /** With LRU on it can only be the least recently used one, and only of a full cache. */
  lemma LruMarkDropsOldest(cfg: Config, s: CacheState, key: Key, now: int, expiresAt: int, s': CacheState)
    requires cfg.enableLRU && Marked(cfg, s, key, now, expiresAt, s')
    ensures key in s'.entries && s'.entries[key] == expiresAt
    ensures forall k | k in s'.entries && k != key :: k in s.entries && s'.entries[k] == s.entries[k]
    ensures forall k | k in s.entries && k != key && k !in s'.entries ::
              |s.entries| >= cfg.maxSize && s.accessOrder != [] && k == s.accessOrder[0]
  {
  }

  /** And so does a cleanup tick. */
  lemma {:induction false} CleanedInSync(cfg: Config, s: CacheState, now: int)
    requires InSync(cfg, s)
    ensures InSync(cfg, Cleaned(cfg, s, now))
  {
    var dead := ExpiredKeys(s, now);
    assert (s.entries - dead).Keys == s.entries.Keys - dead;
    SubsetSize(s.entries.Keys - dead, s.entries.Keys);
    assert |s.entries.Keys| == |s.entries| && |(s.entries - dead).Keys| == |s.entries - dead|;
    if cfg.enableLRU { WithoutNoDup(s.accessOrder, dead); }
  }
}
