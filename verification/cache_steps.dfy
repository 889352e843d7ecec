/** The in-memory cache under concurrent use. IsProcessed gives up its lock between the section
    that reads an entry and the section that deletes or promotes it, so the second section lands
    at an arbitrary later moment. MarkProcessed and a cleanup tick are one section each. */
module CacheSteps {
  import opened Wrappers
  import opened Orders
  import opened CacheModel

  /** The second section an IsProcessed call still owes. */
  datatype Deferred = Drop(key: Key) | Promote(key: Key)

  /** `lateTouches` counts promotions that landed on a key without an entry. */
  datatype System = System(cache: CacheState, pending: multiset<Deferred>, lateTouches: nat)

  datatype Step =
    | Read(key: Key, now: int)
    | Land(deferred: Deferred)
    | Mark(key: Key, now: int, at: int, ttl: int)
    | Tick(now: int)
    | Pause

  const START := System(EMPTY, multiset{}, 0)

  function Owed(cfg: Config, s: CacheState, key: Key, now: int): multiset<Deferred> {
    match Lookup(s, key, now)
    case Absent => multiset{}
    case Stale => multiset{Drop(key)}
    case Hit => if cfg.enableLRU then multiset{Promote(key)} else multiset{}
  }

  ghost predicate Next(cfg: Config, s: System, e: Step, s': System) {
    match e
    case Read(key, now) => s' == s.(pending := s.pending + Owed(cfg, s.cache, key, now))
    case Land(Drop(key)) =>
      Drop(key) in s.pending &&
      s' == s.(cache := Deleted(cfg, s.cache, key), pending := s.pending - multiset{Drop(key)})
    case Land(Promote(key)) =>
      Promote(key) in s.pending &&
      s' == System(Touched(cfg, s.cache, key), s.pending - multiset{Promote(key)},
                   s.lateTouches + if key in s.cache.entries then 0 else 1)
    case Mark(key, now, at, ttl) =>
      Marked(cfg, s.cache, key, now, at + ttl, s'.cache) && s' == s.(cache := s'.cache)
    case Tick(now) => s' == s.(cache := Cleaned(cfg, s.cache, now))
    case Pause => s' == s
  }

  /** `states[n]` is what `steps[..n]` made of a new cache. */
  ghost predicate Run(cfg: Config, states: seq<System>, steps: seq<Step>) {
    && |states| == |steps| + 1
    && states[0] == START
    && forall n | 0 <= n < |steps| :: Next(cfg, states[n], steps[n], states[n + 1])
  }

  lemma ExtendRun(cfg: Config, states: seq<System>, steps: seq<Step>, e: Step, s': System)
    requires Run(cfg, states, steps) && Next(cfg, states[|steps|], e, s')
    ensures Run(cfg, states + [s'], steps + [e])
  {
  }

  // ----- The two structures under every interleaving -----

  ghost predicate Bounded(cfg: Config, s: System) {
    && NoDup(s.cache.accessOrder)
    && s.cache.entries.Keys <= Elems(s.cache.accessOrder)
    && |s.cache.accessOrder| <= |s.cache.entries| + s.lateTouches
    && |s.cache.accessOrder| <= Capacity(cfg.maxSize) + s.lateTouches
  }

  lemma DropKeepsBounded(cfg: Config, s: System, key: Key)
    requires cfg.enableLRU && Bounded(cfg, s)
    ensures Bounded(cfg, s.(cache := Deleted(cfg, s.cache, key)))
  {
    RemoveFirstNoDup(s.cache.accessOrder, key);
    EntriesMinusSize(s.cache.entries, key);
  }

  lemma TouchKeepsBounded(cfg: Config, s: System, key: Key)
    requires cfg.enableLRU && Bounded(cfg, s)
    ensures var late := if key in s.cache.entries then 0 else 1;
            Bounded(cfg, s.(cache := Touched(cfg, s.cache, key), lateTouches := s.lateTouches + late))
  {
    TouchedOrder(s.cache.accessOrder, key);
    assert key in s.cache.entries ==> key in Elems(s.cache.accessOrder);
  }

  lemma {:induction false} TickKeepsBounded(cfg: Config, s: System, now: int)
    requires cfg.enableLRU && Bounded(cfg, s)
    ensures Bounded(cfg, s.(cache := Cleaned(cfg, s.cache, now)))
  {
    var dead := ExpiredKeys(s.cache, now);
    var order := s.cache.accessOrder;
    WithoutNoDup(order, dead);
    NoDupCardinality(order);
    NoDupCardinality(Without(order, dead));
    SubsetSize(dead, Elems(order));
    SubsetSize(dead, s.cache.entries.Keys);
    EntriesSize(s.cache.entries);
    EntriesSize(s.cache.entries - dead);
    assert (s.cache.entries - dead).Keys == s.cache.entries.Keys - dead;
  }

  lemma EntriesSize(m: map<Key, int>)
    ensures |m.Keys| == |m|
  {
  }

  /** What eviction leaves has room for one more key in the access order. */
  lemma EvictionKeepsBounded(cfg: Config, s: System, now: int, room: CacheState)
    requires cfg.enableLRU && Bounded(cfg, s) && Evicted(cfg, s.cache, now, room)
    ensures Bounded(cfg, s.(cache := room)) && |room.accessOrder| < Capacity(cfg.maxSize) + s.lateTouches
  {
    var order, entries := s.cache.accessOrder, s.cache.entries;
    if |entries| >= cfg.maxSize && order != [] {
      EvictedOrder(order);
      EntriesMinusSize(entries, order[0]);
      assert (entries - {order[0]}).Keys == entries.Keys - {order[0]};
    }
  }

  lemma StoringKeepsBounded(cfg: Config, s: System, key: Key, expiresAt: int)
    requires cfg.enableLRU && Bounded(cfg, s) && |s.cache.accessOrder| < Capacity(cfg.maxSize) + s.lateTouches
    ensures Bounded(cfg, s.(cache := Stored(cfg, s.cache, key, expiresAt)))
  {
    TouchedOrder(s.cache.accessOrder, key);
    EntriesPlusSize(s.cache.entries, key, expiresAt);
    assert s.cache.entries[key := expiresAt].Keys == s.cache.entries.Keys + {key};
    assert key in s.cache.entries ==> key in Elems(s.cache.accessOrder);
  }

  lemma MarkKeepsBounded(cfg: Config, s: System, key: Key, now: int, expiresAt: int, cache': CacheState)
    requires cfg.enableLRU && Bounded(cfg, s) && Marked(cfg, s.cache, key, now, expiresAt, cache')
    ensures Bounded(cfg, s.(cache := cache'))
  {
    var room :| Evicted(cfg, s.cache, now, room) && cache' == Stored(cfg, room, key, expiresAt);
    EvictionKeepsBounded(cfg, s, now, room);
    StoringKeepsBounded(cfg, s.(cache := room), key, expiresAt);
  }

  lemma {:induction false} StepKeepsBounded(cfg: Config, s: System, e: Step, s': System)
    requires cfg.enableLRU && Bounded(cfg, s) && Next(cfg, s, e, s')
    ensures Bounded(cfg, s')
  {
    match e
    case Land(Drop(key)) => DropKeepsBounded(cfg, s, key);
    case Land(Promote(key)) => TouchKeepsBounded(cfg, s, key);
    case Mark(key, now, at, ttl) => MarkKeepsBounded(cfg, s, key, now, at + ttl, s'.cache);
    case Tick(now) => TickKeepsBounded(cfg, s, now);
    case _ =>
  }

  /** A promotion that lands late leaves a key in the access order that has no entry. */
  lemma LateTouchBreaksSync(cfg: Config, s: System, e: Step, s': System)
    requires cfg.enableLRU && Next(cfg, s, e, s')
    ensures s.lateTouches <= s'.lateTouches
    ensures s.lateTouches < s'.lateTouches ==> !InSync(cfg, s'.cache)
  {
    if s.lateTouches < s'.lateTouches {
      var key := e.deferred.key;
      assert s'.cache.accessOrder[|s'.cache.accessOrder| - 1] == key;
      assert key in Elems(s'.cache.accessOrder) && key !in s'.cache.entries.Keys;
    }
  }

  /** With LRU on, whatever the interleaving: the access order has no duplicates and covers the
      entries, and the cache outgrows its capacity by at most the late promotions. The two structures
      have agreed all along if and only if no promotion was late. */
  lemma {:induction false} InterleavingsStayBounded(cfg: Config, states: seq<System>, steps: seq<Step>, n: nat)
    requires cfg.enableLRU && Run(cfg, states, steps) && n <= |steps|
    ensures Bounded(cfg, states[n])
    ensures |states[n].cache.entries| <= Capacity(cfg.maxSize) + states[n].lateTouches
    ensures (forall m | 0 <= m <= n :: InSync(cfg, states[m].cache)) <==> states[n].lateTouches == 0
  {
    hide Bounded, InSync, Next;
    if n > 0 {
      InterleavingsStayBounded(cfg, states, steps, n - 1);
      StepKeepsBounded(cfg, states[n - 1], steps[n - 1], states[n]);
      LateTouchBreaksSync(cfg, states[n - 1], steps[n - 1], states[n]);
    } else {
      StartIsBounded(cfg);
    }
    BoundedMeans(cfg, states[n]);
  }

  lemma StartIsBounded(cfg: Config)
    ensures Bounded(cfg, START)
  {
  }

  /** With LRU off there is nothing to promote late, and the plain bound holds in every interleaving. */
  lemma {:induction false} PlainModeStaysInSync(cfg: Config, states: seq<System>, steps: seq<Step>, n: nat)
    requires !cfg.enableLRU && Run(cfg, states, steps) && n <= |steps|
    ensures InSync(cfg, states[n].cache)
  {
    if n > 0 {
      PlainModeStaysInSync(cfg, states, steps, n - 1);
      PlainStepStaysInSync(cfg, states[n - 1], steps[n - 1], states[n]);
    }
  }

  lemma PlainStepStaysInSync(cfg: Config, s: System, e: Step, s': System)
    requires !cfg.enableLRU && InSync(cfg, s.cache) && Next(cfg, s, e, s')
    ensures InSync(cfg, s'.cache)
  {
    match e
    case Land(Drop(key)) => EntriesMinusSize(s.cache.entries, key);
    case Mark(key, now, at, ttl) => MarkedInSync(cfg, s.cache, key, now, at + ttl, s'.cache);
    case Tick(now) => CleanedInSync(cfg, s.cache, now);
    case _ =>
  }

  lemma BoundedMeans(cfg: Config, s: System)
    requires cfg.enableLRU && Bounded(cfg, s)
    ensures |s.cache.entries| <= Capacity(cfg.maxSize) + s.lateTouches
    ensures s.lateTouches == 0 ==> InSync(cfg, s.cache)
  {
    var ks, order := s.cache.entries.Keys, Elems(s.cache.accessOrder);
    NoDupCardinality(s.cache.accessOrder);
    assert |ks| == |s.cache.entries|;
    SubsetSize(ks, order);
    if s.lateTouches == 0 {
      assert order == ks + (order - ks);
    }
  }

  /** Extends a run of a full LRU cache of size 1 by a mark of a new key, which evicts the oldest. */
  lemma MarkWhenFull(states: seq<System>, steps: seq<Step>, key: Key, expiresAt: int)
    returns (states': seq<System>, steps': seq<Step>)
    requires Run(Config(1, true), states, steps)
    requires var s := states[|steps|].cache; |s.entries| >= 1 && s.accessOrder != [] && key !in s.accessOrder
    ensures Run(Config(1, true), states', steps')
    ensures var s := states[|steps|];
            var order := s.cache.accessOrder;
            states'[|steps'|] ==
            s.(cache := CacheState((s.cache.entries - {order[0]})[key := expiresAt], order[1..] + [key]))
  {
    var s := states[|steps|];
    var marked := LruMarked(1, s.cache, key, expiresAt);
    LruMarkedIsMarked(1, s.cache, key, 0, expiresAt, marked);
    ExtendRun(Config(1, true), states, steps, Mark(key, 0, 0, expiresAt), s.(cache := marked));
    states', steps' := states + [s.(cache := marked)], steps + [Mark(key, 0, 0, expiresAt)];
  }

  /** `a` is read as a hit, then evicted by a mark of `b`, and only then promoted. */
  lemma PromoteEvicted(a: Key, b: Key) returns (states: seq<System>, steps: seq<Step>)
    requires a != b
    ensures Run(Config(1, true), states, steps)
    ensures states[|steps|] == System(CacheState(map[b := 1], [b, a]), multiset{}, 1)
  {
    var cfg := Config(1, true);
    var s1 := System(CacheState(map[a := 0], [a]), multiset{}, 0);
    var s2 := s1.(pending := multiset{Promote(a)});
    LruMarkedIsMarked(1, EMPTY, a, 0, 0, s1.cache);
    ExtendRun(cfg, [START], [], Mark(a, 0, 0, 0), s1);
    states, steps := [START] + [s1], [] + [Mark(a, 0, 0, 0)];
    ExtendRun(cfg, states, steps, Read(a, 0), s2);
    states, steps := states + [s2], steps + [Read(a, 0)];
    states, steps := MarkWhenFull(states, steps, b, 1);
    var s3, s4 := states[|steps|], System(CacheState(map[b := 1], [b, a]), multiset{}, 1);
    assert s3.cache == CacheState(map[b := 1], [b]);
    assert s3.pending - multiset{Promote(a)} == multiset{};
    ExtendRun(cfg, states, steps, Land(Promote(a)), s4);
    states, steps := states + [s4], steps + [Land(Promote(a))];
  }

  /** The bound is met: one late promotion lets a cache of size 1 hold two entries. */
  lemma LateTouchOverfills(a: Key, b: Key, c: Key, d: Key) returns (states: seq<System>, steps: seq<Step>)
    requires a != b && a != c && b != c && d != a && d != b && d != c
    ensures Run(Config(1, true), states, steps)
    ensures states[|steps|].lateTouches == 1 && states[|steps|].cache.entries.Keys == {c, d}
  {
    states, steps := PromoteEvicted(a, b);
    states, steps := MarkWhenFull(states, steps, c, 2);
    assert states[|steps|].cache == CacheState(map[c := 2], [a, c]);
    states, steps := MarkWhenFull(states, steps, d, 3);
    assert states[|steps|].cache.entries == map[c := 2, d := 3];
  }

  /** A mark overfills the cache: it stores a new key in a full cache whose oldest key has no entry, so
      that evicting it makes no room. */
  predicate Overfills(cfg: Config, s: CacheState, e: Step) {
    && e.Mark? && e.key !in s.entries && |s.entries| >= Capacity(cfg.maxSize)
    && s.accessOrder != [] && s.accessOrder[0] !in s.entries
  }

  /** A mark of a cache within its capacity exceeds it exactly if it overfills it. */
  lemma MarkOverfills(cfg: Config, s: System, e: Step, s': System)
    requires cfg.enableLRU && Bounded(cfg, s) && Next(cfg, s, e, s') && e.Mark?
    requires |s.cache.entries| <= Capacity(cfg.maxSize)
    ensures |s'.cache.entries| <= Capacity(cfg.maxSize) <==> !Overfills(cfg, s.cache, e)
  {
    var room :| Evicted(cfg, s.cache, e.now, room) && s'.cache == Stored(cfg, room, e.key, e.at + e.ttl);
    EntriesPlusSize(room.entries, e.key, e.at + e.ttl);
    NoDupCardinality(s.cache.accessOrder);
    EntriesSize(s.cache.entries);
    SubsetSize(s.cache.entries.Keys, Elems(s.cache.accessOrder));
    if s.cache.accessOrder != [] { EntriesMinusSize(s.cache.entries, s.cache.accessOrder[0]); }
  }

  /** Nothing but a mark adds an entry. */
  lemma OtherStepsAddNothing(cfg: Config, s: System, e: Step, s': System)
    requires Next(cfg, s, e, s') && !e.Mark?
    ensures |s'.cache.entries| <= |s.cache.entries|
  {
    match e
    case Land(Drop(key)) => EntriesMinusSize(s.cache.entries, key);
    case Tick(now) =>
      EntriesSize(s.cache.entries);
      EntriesSize(s'.cache.entries);
      SubsetSize(s'.cache.entries.Keys, s.cache.entries.Keys);
    case _ =>
  }

  /** With LRU on, in every interleaving: the cache has kept within its capacity all along if and only if
      no mark has met a full cache whose oldest key had lost its entry. */
  lemma {:induction false} SizeBoundExact(cfg: Config, states: seq<System>, steps: seq<Step>, n: nat)
    requires cfg.enableLRU && Run(cfg, states, steps) && n <= |steps|
    ensures (forall m | 0 <= m <= n :: |states[m].cache.entries| <= Capacity(cfg.maxSize)) <==>
            (forall i | 0 <= i < n :: !Overfills(cfg, states[i].cache, steps[i]))
  {
    hide Bounded, InSync, Next, Overfills;
    if n > 0 {
      SizeBoundExact(cfg, states, steps, n - 1);
      InterleavingsStayBounded(cfg, states, steps, n - 1);
      var s, e, s' := states[n - 1], steps[n - 1], states[n];
      assert Next(cfg, s, e, s');
      if |s.cache.entries| <= Capacity(cfg.maxSize) {
        if e.Mark? {
          MarkOverfills(cfg, s, e, s');
        } else {
          OtherStepsAddNothing(cfg, s, e, s');
          OnlyMarksOverfill(cfg, s.cache, e);
        }
      }
    }
  }

  lemma OnlyMarksOverfill(cfg: Config, s: CacheState, e: Step)
    requires !e.Mark?
    ensures !Overfills(cfg, s, e)
  {
  }

  // ----- Why a key is reported as processed -----

  /** The expiry the latest mark of `key` in `steps[..n]` gave it. */
  function LastExpiry(steps: seq<Step>, n: nat, key: Key): Option<int>
    requires n <= |steps|
  {
    if n == 0 then None
    else if steps[n - 1].Mark? && steps[n - 1].key == key then Some(steps[n - 1].at + steps[n - 1].ttl)
    else LastExpiry(steps, n - 1, key)
  }

  /** A delayed delete of `key` landed in `steps[..n]` after its latest mark. */
  predicate DroppedSinceMark(steps: seq<Step>, n: nat, key: Key)
    requires n <= |steps|
  {
    n > 0 &&
    if steps[n - 1].Mark? && steps[n - 1].key == key then false
    else steps[n - 1] == Land(Drop(key)) || DroppedSinceMark(steps, n - 1, key)
  }

  /** The answer of a plain map from keys to expiries, which never evicts and needs no deletes. */
  predicate TtlHit(steps: seq<Step>, n: nat, key: Key, now: int)
    requires n <= |steps|
  {
    var last := LastExpiry(steps, n, key);
    last.Some? && now <= last.value
  }

  lemma MarkedEntries(cfg: Config, s: CacheState, key: Key, now: int, expiresAt: int, s': CacheState)
    requires Marked(cfg, s, key, now, expiresAt, s')
    ensures key in s'.entries && s'.entries[key] == expiresAt
    ensures forall k | k in s'.entries && k != key :: k in s.entries && s'.entries[k] == s.entries[k]
    ensures |s.entries| < cfg.maxSize ==> s' == Stored(cfg, s, key, expiresAt)
  {
  }

  /** Every entry was put there by the latest mark of its key, and nothing has deleted it since. */
  lemma {:induction false} EntriesComeFromMarks(cfg: Config, states: seq<System>, steps: seq<Step>, n: nat, key: Key)
    requires Run(cfg, states, steps) && n <= |steps| && key in states[n].cache.entries
    ensures LastExpiry(steps, n, key) == Some(states[n].cache.entries[key])
    ensures !DroppedSinceMark(steps, n, key)
  {
    hide Marked;
    if n > 0 {
      var s, e, s' := states[n - 1], steps[n - 1], states[n];
      assert Next(cfg, s, e, s');
      if e.Mark? { MarkedEntries(cfg, s.cache, e.key, e.now, e.at + e.ttl, s'.cache); }
      if !(e.Mark? && e.key == key) {
        EntriesComeFromMarks(cfg, states, steps, n - 1, key);
      }
    }
  }

  /** No key is skipped without cause: a positive answer at `now`, in any interleaving with eviction
      and cleanup, means the latest mark of the key has an expiry that is not before `now`. */
  lemma HitsHaveACause(cfg: Config, states: seq<System>, steps: seq<Step>, n: nat, key: Key, now: int)
    requires Run(cfg, states, steps) && n < |steps| && steps[n] == Read(key, now)
    requires Lookup(states[n].cache, key, now) == Hit
    ensures TtlHit(steps, n, key, now)
    ensures exists m | 0 <= m < n :: steps[m].Mark? && steps[m].key == key && steps[m].at + steps[m].ttl >= now
  {
    EntriesComeFromMarks(cfg, states, steps, n, key);
    LastExpiryIsAMark(steps, n, key);
  }

  lemma {:induction false} LastExpiryIsAMark(steps: seq<Step>, n: nat, key: Key)
    requires n <= |steps| && LastExpiry(steps, n, key).Some?
    ensures exists m | 0 <= m < n ::
              steps[m].Mark? && steps[m].key == key && LastExpiry(steps, n, key) == Some(steps[m].at + steps[m].ttl)
  {
    if !(steps[n - 1].Mark? && steps[n - 1].key == key) {
      LastExpiryIsAMark(steps, n - 1, key);
    }
  }

  // ----- When the cache is a plain TTL map -----

  function MarkedKeys(steps: seq<Step>, n: nat): set<Key>
    requires n <= |steps|
  {
    set i | 0 <= i < n && steps[i].Mark? :: steps[i].key
  }

  predicate Timed(e: Step) { e.Read? || e.Mark? || e.Tick? }

  function Latest(e: Step): int
    requires Timed(e)
  {
    if e.Mark? then e.at else e.now
  }

  /** Clock readings never go back, neither between steps nor within a mark. */
  predicate MonotoneClock(steps: seq<Step>) {
    && (forall i, j | 0 <= i < j < |steps| && Timed(steps[i]) && Timed(steps[j]) :: Latest(steps[i]) <= steps[j].now)
    && (forall i | 0 <= i < |steps| && steps[i].Mark? :: steps[i].now <= steps[i].at)
  }

  lemma {:induction false} EntriesAreMarkedKeys(cfg: Config, states: seq<System>, steps: seq<Step>, n: nat)
    requires Run(cfg, states, steps) && n <= |steps|
    ensures states[n].cache.entries.Keys <= MarkedKeys(steps, n)
  {
    if n > 0 {
      EntriesAreMarkedKeys(cfg, states, steps, n - 1);
      var s, e, s' := states[n - 1], steps[n - 1], states[n];
      assert Next(cfg, s, e, s');
      assert MarkedKeys(steps, n - 1) <= MarkedKeys(steps, n);
      if e.Mark? {
        MarkedEntries(cfg, s.cache, e.key, e.now, e.at + e.ttl, s'.cache);
        assert e.key in MarkedKeys(steps, n);
      }
    }
  }

  /** No mark finds the cache full, so nothing is ever evicted. */
  ghost predicate NeverFull(cfg: Config, states: seq<System>, steps: seq<Step>)
    requires |states| == |steps| + 1
  {
    forall i | 0 <= i < |steps| && steps[i].Mark? :: |states[i].cache.entries| < cfg.maxSize
  }

  /** So it is when fewer distinct keys are marked than there is room for, in either mode and in any
      interleaving; it also is in longer runs, when ticks make room in time. */
  lemma FewKeysNeverFull(cfg: Config, states: seq<System>, steps: seq<Step>)
    requires Run(cfg, states, steps) && |MarkedKeys(steps, |steps|)| < cfg.maxSize
    ensures NeverFull(cfg, states, steps)
  {
    forall i | 0 <= i < |steps| && steps[i].Mark? ensures |states[i].cache.entries| < cfg.maxSize {
      EntriesAreMarkedKeys(cfg, states, steps, i);
      assert MarkedKeys(steps, i) <= MarkedKeys(steps, |steps|);
      SubsetSize(states[i].cache.entries.Keys, MarkedKeys(steps, |steps|));
      assert |states[i].cache.entries.Keys| == |states[i].cache.entries|;
    }
  }

  predicate CleanedAway(steps: seq<Step>, n: nat, expiresAt: int)
    requires n <= |steps|
  {
    exists i | 0 <= i < n :: steps[i].Tick? && Expired(expiresAt, steps[i].now)
  }

  /** How one step can leave a key without an entry. */
  lemma EntryIsMissing(cfg: Config, s: System, e: Step, s': System, key: Key)
    requires Next(cfg, s, e, s') && key !in s'.cache.entries
    ensures !(e.Mark? && e.key == key)
    ensures key in s.cache.entries ==>
              || e == Land(Drop(key)) || (e.Tick? && Expired(s.cache.entries[key], e.now))
              || (e.Mark? && |s.cache.entries| >= cfg.maxSize)
  {
    hide Marked;
    if e.Mark? { MarkedEntries(cfg, s.cache, e.key, e.now, e.at + e.ttl, s'.cache); }
  }

  /** A mark of another key took the entry of `key` in step `i`. */
  predicate Evicts(states: seq<System>, steps: seq<Step>, i: nat, key: Key)
    requires |states| == |steps| + 1 && i < |steps|
  {
    steps[i].Mark? && key in states[i].cache.entries && key !in states[i + 1].cache.entries
  }

  /** That has happened in `steps[..n]` after the latest mark of `key`. */
  predicate EvictedSinceMark(states: seq<System>, steps: seq<Step>, n: nat, key: Key)
    requires |states| == |steps| + 1 && n <= |steps|
  {
    n > 0 &&
    if steps[n - 1].Mark? && steps[n - 1].key == key then false
    else Evicts(states, steps, n - 1, key) || EvictedSinceMark(states, steps, n - 1, key)
  }

  /** A marked key loses its entry only to a delete, to a mark, or to a tick after its expiry. */
  lemma {:induction false} MissingEntriesExplained(cfg: Config, states: seq<System>, steps: seq<Step>, n: nat, key: Key)
    requires Run(cfg, states, steps) && n <= |steps| && key !in states[n].cache.entries
    ensures var last := LastExpiry(steps, n, key);
            || last == None || DroppedSinceMark(steps, n, key) || EvictedSinceMark(states, steps, n, key)
            || CleanedAway(steps, n, last.value)
  {
    hide Next;
    if n > 0 {
      EntryIsMissing(cfg, states[n - 1], steps[n - 1], states[n], key);
      if key in states[n - 1].cache.entries {
        EntriesComeFromMarks(cfg, states, steps, n - 1, key);
      } else {
        MissingEntriesExplained(cfg, states, steps, n - 1, key);
      }
    }
  }

  /** An entry has not been evicted since its latest mark. */
  lemma {:induction false} EntriesAreNotEvicted(cfg: Config, states: seq<System>, steps: seq<Step>, n: nat, key: Key)
    requires Run(cfg, states, steps) && n <= |steps| && key in states[n].cache.entries
    ensures !EvictedSinceMark(states, steps, n, key)
  {
    hide Marked;
    if n > 0 && !(steps[n - 1].Mark? && steps[n - 1].key == key) {
      var s, e, s' := states[n - 1], steps[n - 1], states[n];
      assert Next(cfg, s, e, s');
      if e.Mark? { MarkedEntries(cfg, s.cache, e.key, e.now, e.at + e.ttl, s'.cache); }
      EntriesAreNotEvicted(cfg, states, steps, n - 1, key);
    }
  }

  /** With a monotone clock, in either mode, any size and any interleaving, the answer is that of the plain
      TTL map except exactly where, since the latest mark, a delayed delete landed or a mark of another key
      took the entry. */
  lemma AnswersWithEviction(cfg: Config, states: seq<System>, steps: seq<Step>, n: nat, key: Key, now: int)
    requires Run(cfg, states, steps) && n < |steps| && steps[n] == Read(key, now) && MonotoneClock(steps)
    ensures Lookup(states[n].cache, key, now) == Hit <==>
            && TtlHit(steps, n, key, now) && !DroppedSinceMark(steps, n, key)
            && !EvictedSinceMark(states, steps, n, key)
  {
    if key in states[n].cache.entries {
      EntriesComeFromMarks(cfg, states, steps, n, key);
      EntriesAreNotEvicted(cfg, states, steps, n, key);
    } else {
      MissingEntriesExplained(cfg, states, steps, n, key);
    }
  }

  lemma {:induction false} EvictionHasStep(cfg: Config, states: seq<System>, steps: seq<Step>, n: nat, key: Key)
    returns (i: nat)
    requires Run(cfg, states, steps) && n <= |steps| && EvictedSinceMark(states, steps, n, key)
    ensures i < n && Evicts(states, steps, i, key)
    ensures LastExpiry(steps, n, key) == Some(states[i].cache.entries[key])
  {
    if Evicts(states, steps, n - 1, key) {
      i := n - 1;
      EntriesComeFromMarks(cfg, states, steps, n - 1, key);
    } else {
      i := EvictionHasStep(cfg, states, steps, n - 1, key);
    }
  }

  /** With LRU off, a key that should still be a hit was evicted only by a mark that found the cache full
      and none of its entries expired. */
  lemma PlainEvictionsNeedLiveCache(cfg: Config, states: seq<System>, steps: seq<Step>, n: nat, key: Key, now: int)
    returns (i: nat)
    requires !cfg.enableLRU && Run(cfg, states, steps) && MonotoneClock(steps)
    requires n < |steps| && steps[n] == Read(key, now) && TtlHit(steps, n, key, now)
    requires EvictedSinceMark(states, steps, n, key)
    ensures i < n && steps[i].Mark? && key in states[i].cache.entries && key !in states[i + 1].cache.entries
    ensures |states[i].cache.entries| >= cfg.maxSize
    ensures forall k | k in states[i].cache.entries :: steps[i].now <= states[i].cache.entries[k]
  {
    i := EvictionHasStep(cfg, states, steps, n, key);
    var e := steps[i];
    assert Next(cfg, states[i], e, states[i + 1]);
    PlainMarkDropsOne(cfg, states[i].cache, e.key, e.now, e.at + e.ttl, states[i + 1].cache);
    assert e.now <= e.at == Latest(e) <= steps[n].now;
  }

  lemma {:induction false} NeverFullNeverEvicts(cfg: Config, states: seq<System>, steps: seq<Step>, n: nat, key: Key)
    requires Run(cfg, states, steps) && n <= |steps| && NeverFull(cfg, states, steps)
    ensures !EvictedSinceMark(states, steps, n, key)
  {
    hide Next;
    if n > 0 {
      NeverFullNeverEvicts(cfg, states, steps, n - 1, key);
      if Evicts(states, steps, n - 1, key) {
        EntryIsMissing(cfg, states[n - 1], steps[n - 1], states[n], key);
      }
    }
  }

  /** With a cache that is never full, only the delayed delete remains. Ticks and promotions are never
      observable. */
  lemma AnswersAreExact(cfg: Config, states: seq<System>, steps: seq<Step>, n: nat, key: Key, now: int)
    requires Run(cfg, states, steps) && n < |steps| && steps[n] == Read(key, now)
    requires NeverFull(cfg, states, steps) && MonotoneClock(steps)
    ensures Lookup(states[n].cache, key, now) == Hit <==>
            TtlHit(steps, n, key, now) && !DroppedSinceMark(steps, n, key)
  {
    AnswersWithEviction(cfg, states, steps, n, key, now);
    NeverFullNeverEvicts(cfg, states, steps, n, key);
  }

  /** Calls do not overlap: an owed section is always the next thing to happen. */
  ghost predicate Sequential(states: seq<System>, steps: seq<Step>)
    requires |states| == |steps| + 1
  {
    forall n | 0 <= n < |steps| && states[n].pending != multiset{} :: steps[n].Land?
  }

  lemma {:induction false} SequentialPending(cfg: Config, states: seq<System>, steps: seq<Step>, n: nat)
    requires Run(cfg, states, steps) && n <= |steps| && Sequential(states, steps)
    ensures states[n].pending == multiset{} ||
            (n > 0 && steps[n - 1].Read?
             && states[n].pending == Owed(cfg, states[n - 1].cache, steps[n - 1].key, steps[n - 1].now))
  {
    if n > 0 {
      SequentialPending(cfg, states, steps, n - 1);
      assert Next(cfg, states[n - 1], steps[n - 1], states[n]);
    }
  }

  /** A delete lands right after the read that found the entry expired. */
  lemma SequentialDropHasRead(cfg: Config, states: seq<System>, steps: seq<Step>, n: nat, key: Key)
    requires Run(cfg, states, steps) && n < |steps| && Sequential(states, steps) && steps[n] == Land(Drop(key))
    ensures n > 0 && steps[n - 1].Read? && steps[n - 1].key == key
    ensures Lookup(states[n - 1].cache, key, steps[n - 1].now) == Stale
  {
    assert Next(cfg, states[n], steps[n], states[n + 1]);
    SequentialPending(cfg, states, steps, n);
    assert Drop(key) in states[n].pending;
  }

  lemma {:induction false} SequentialDropsAreExpired(
    cfg: Config, states: seq<System>, steps: seq<Step>, n: nat, key: Key)
    requires Run(cfg, states, steps) && n <= |steps| && Sequential(states, steps)
    requires DroppedSinceMark(steps, n, key) && LastExpiry(steps, n, key).Some?
    ensures exists i | 0 <= i < n :: steps[i].Read? && Expired(LastExpiry(steps, n, key).value, steps[i].now)
  {
    if steps[n - 1] == Land(Drop(key)) {
      SequentialDropHasRead(cfg, states, steps, n - 1, key);
      EntriesComeFromMarks(cfg, states, steps, n - 2, key);
      assert LastExpiry(steps, n - 2, key) == LastExpiry(steps, n - 1, key) == LastExpiry(steps, n, key);
    } else {
      SequentialDropsAreExpired(cfg, states, steps, n - 1, key);
    }
  }

  /** Hence calls that do not overlap see exactly the plain TTL map. */
  lemma SequentialRunsAreTtlMaps(cfg: Config, states: seq<System>, steps: seq<Step>, n: nat, key: Key, now: int)
    requires Run(cfg, states, steps) && n < |steps| && steps[n] == Read(key, now)
    requires NeverFull(cfg, states, steps) && MonotoneClock(steps) && Sequential(states, steps)
    ensures Lookup(states[n].cache, key, now) == Hit <==> TtlHit(steps, n, key, now)
  {
    AnswersAreExact(cfg, states, steps, n, key, now);
    if TtlHit(steps, n, key, now) && DroppedSinceMark(steps, n, key) {
      SequentialDropsAreExpired(cfg, states, steps, n, key);
    }
  }

  /** A read finds `a` expired, and before its delete lands `a` is marked again. */
  lemma MarkedAgainInTheGap(a: Key) returns (states: seq<System>, steps: seq<Step>)
    ensures Run(Config(9, false), states, steps)
    ensures steps == [Mark(a, 0, 0, 10), Read(a, 11), Mark(a, 12, 12, 10)]
    ensures states[3] == System(CacheState(map[a := 22], []), multiset{Drop(a)}, 0)
  {
    var cfg := Config(9, false);
    var c1, c2 := CacheState(map[a := 10], []), CacheState(map[a := 22], []);
    var s1, s2, s3 := System(c1, multiset{}, 0), System(c1, multiset{Drop(a)}, 0), System(c2, multiset{Drop(a)}, 0);
    assert Evicted(cfg, EMPTY, 0, EMPTY) && c1 == Stored(cfg, EMPTY, a, 10);
    assert Evicted(cfg, c1, 12, c1) && c2 == Stored(cfg, c1, a, 22);
    assert Next(cfg, START, Mark(a, 0, 0, 10), s1) && Next(cfg, s1, Read(a, 11), s2);
    assert Next(cfg, s2, Mark(a, 12, 12, 10), s3);
    states, steps := [START, s1, s2, s3], [Mark(a, 0, 0, 10), Read(a, 11), Mark(a, 12, 12, 10)];
  }

  /** Overlapping calls do not: that delete removes the new mark, and ten units before its expiry
      the key is reported as not processed. */
  lemma LockGapLosesMark(a: Key) returns (states: seq<System>, steps: seq<Step>)
    ensures Run(Config(9, false), states, steps) && MonotoneClock(steps)
    ensures |steps| == 5 && steps[4] == Read(a, 12)
    ensures TtlHit(steps, 4, a, 12) && Lookup(states[4].cache, a, 12) == Absent
  {
    states, steps := MarkedAgainInTheGap(a);
    assert states[3].pending - multiset{Drop(a)} == multiset{} && states[3].cache.entries - {a} == map[];
    ExtendRun(Config(9, false), states, steps, Land(Drop(a)), START);
    states, steps := states + [START], steps + [Land(Drop(a))];
    ExtendRun(Config(9, false), states, steps, Read(a, 12), START);
    states, steps := states + [START], steps + [Read(a, 12)];
    assert LastExpiry(steps, 3, a) == Some(22);
    assert LastExpiry(steps, 4, a) == Some(22);
  }
}
