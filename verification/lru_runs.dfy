/** Whole runs of operations on the LRU cache that do not overlap: recency of the access order, and how
    long a key survives. */
module LruRuns {
  import opened Orders
  import opened CacheModel

  datatype Op = Query(key: Key, now: int) | Store(key: Key, expiresAt: int) | Clean(now: int)

  function Apply(maxSize: nat, s: CacheState, op: Op): CacheState {
    match op
    case Query(key, now) => Queried(Config(maxSize, true), s, key, now)
    case Store(key, expiresAt) => LruMarked(maxSize, s, key, expiresAt)
    case Clean(now) => Cleaned(Config(maxSize, true), s, now)
  }

  /** The cache after `ops[..n]`. */
  function After(maxSize: nat, ops: seq<Op>, n: nat): CacheState
    requires n <= |ops|
  {
    if n == 0 then EMPTY else Apply(maxSize, After(maxSize, ops, n - 1), ops[n - 1])
  }

  /** Operation `i` makes `key` the most recently used one: it stores the key or finds it live. */
  predicate Touches(maxSize: nat, ops: seq<Op>, i: nat, key: Key)
    requires i < |ops|
  {
    match ops[i]
    case Query(k, now) => k == key && Lookup(After(maxSize, ops, i), key, now) == Hit
    case Store(k, _) => k == key
    case Clean(_) => false
  }

  /** The index of the latest operation in `ops[..n]` that touched `key`, or -1. */
  function LastTouch(maxSize: nat, ops: seq<Op>, n: nat, key: Key): int
    requires n <= |ops|
  {
    if n == 0 then -1
    else if Touches(maxSize, ops, n - 1, key) then n - 1
    else LastTouch(maxSize, ops, n - 1, key)
  }

  lemma {:induction false} LastTouchTouches(maxSize: nat, ops: seq<Op>, n: nat, key: Key)
    requires n <= |ops|
    ensures var i := LastTouch(maxSize, ops, n, key); -1 <= i < n && (i >= 0 ==> Touches(maxSize, ops, i, key))
  {
    if n > 0 && !Touches(maxSize, ops, n - 1, key) { LastTouchTouches(maxSize, ops, n - 1, key); }
  }

  /** An access order whose keys have ever larger, non-negative ranks. */
  ghost predicate Ascending(order: seq<Key>, rank: Key -> int) {
    && (forall i | 0 <= i < |order| :: rank(order[i]) >= 0)
    && (forall i, j | 0 <= i < j < |order| :: rank(order[i]) < rank(order[j]))
  }

  lemma AscendingRemoval(order: seq<Key>, rank: Key -> int, key: Key)
    requires NoDup(order) && Ascending(order, rank)
    ensures Ascending(RemoveFirst(order, key), rank)
  {
    var order' := RemoveFirst(order, key);
    forall i | 0 <= i < |order'| ensures rank(order'[i]) >= 0 {
      assert order'[i] in order by {
        RemoveFirstNoDup(order, key);
        assert order'[i] in Elems(order');
      }
    }
    forall i, j | 0 <= i < j < |order'| ensures rank(order'[i]) < rank(order'[j]) {
      RemoveFirstIndex(order, key, i, j);
    }
  }

  lemma AscendingCleanup(order: seq<Key>, rank: Key -> int, dead: set<Key>)
    requires Ascending(order, rank)
    ensures Ascending(Without(order, dead), rank)
  {
    var order' := Without(order, dead);
    forall i | 0 <= i < |order'| ensures rank(order'[i]) >= 0 {
      assert order'[i] in order;
    }
    forall i, j | 0 <= i < j < |order'| ensures rank(order'[i]) < rank(order'[j]) {
      WithoutIndex(order, dead, i, j);
    }
  }

  /** Moving `key` to the end and giving it a rank above all others. */
  lemma AscendingTouch(order: seq<Key>, rank: Key -> int, key: Key, rank': Key -> int, top: nat)
    requires NoDup(order) && Ascending(order, rank)
    requires forall k :: rank(k) < top && rank'(k) == if k == key then top else rank(k)
    ensures Ascending(RemoveFirst(order, key) + [key], rank')
  {
    AscendingRemoval(order, rank, key);
    RemoveFirstNoDup(order, key);
    var rest := RemoveFirst(order, key);
    forall i | 0 <= i < |rest| ensures rank'(rest[i]) == rank(rest[i]) {
      assert rest[i] in Elems(rest);
    }
  }

  lemma AscendingSame(order: seq<Key>, rank: Key -> int, rank': Key -> int)
    requires Ascending(order, rank) && forall i | 0 <= i < |order| :: rank'(order[i]) == rank(order[i])
    ensures Ascending(order, rank')
  {
  }

  function Rank(maxSize: nat, ops: seq<Op>, n: nat): Key -> int
    requires n <= |ops|
  {
    k => LastTouch(maxSize, ops, n, k)
  }

  /** Operation `n` gives the key it touches, and no other, the rank `n`. */
  ghost predicate RanksStep(s: CacheState, op: Op, rank: Key -> int, rank': Key -> int, n: nat) {
    var touched := op.Store? || (op.Query? && Lookup(s, op.key, op.now) == Hit);
    forall k :: rank(k) < n && rank'(k) == if touched && k == op.key then n else rank(k)
  }

  lemma RankStep(maxSize: nat, ops: seq<Op>, n: nat)
    requires n < |ops|
    ensures RanksStep(After(maxSize, ops, n), ops[n], Rank(maxSize, ops, n), Rank(maxSize, ops, n + 1), n)
  {
    forall k ensures Rank(maxSize, ops, n)(k) < n { LastTouchTouches(maxSize, ops, n, k); }
  }

  lemma {:induction false} ApplyInSync(maxSize: nat, s: CacheState, op: Op)
    requires InSync(Config(maxSize, true), s)
    ensures InSync(Config(maxSize, true), Apply(maxSize, s, op))
  {
    match op
    case Query(key, now) => QueriedInSync(Config(maxSize, true), s, key, now);
    case Store(key, expiresAt) =>
      LruMarkedIsMarked(maxSize, s, key, 0, expiresAt, Apply(maxSize, s, op));
      MarkedInSync(Config(maxSize, true), s, key, 0, expiresAt, Apply(maxSize, s, op));
    case Clean(now) => CleanedInSync(Config(maxSize, true), s, now);
  }

  /** One operation, given what it touches and the ranks before and after it. */
  lemma {:induction false} ApplyAscends(maxSize: nat, s: CacheState, op: Op, rank: Key -> int, rank': Key -> int, top: nat)
    requires InSync(Config(maxSize, true), s) && Ascending(s.accessOrder, rank)
    requires RanksStep(s, op, rank, rank', top)
    ensures Ascending(Apply(maxSize, s, op).accessOrder, rank')
  {
    match op
    case Query(key, now) =>
      match Lookup(s, key, now) {
        case Hit => AscendingTouch(s.accessOrder, rank, key, rank', top);
        case Stale =>
          AscendingRemoval(s.accessOrder, rank, key);
          AscendingSame(RemoveFirst(s.accessOrder, key), rank, rank');
        case Absent => AscendingSame(s.accessOrder, rank, rank');
      }
    case Store(key, expiresAt) =>
      if |s.entries| < maxSize || s.accessOrder == [] {
        AscendingTouch(s.accessOrder, rank, key, rank', top);
      } else {
        EvictedOrder(s.accessOrder);
        AscendingTouch(s.accessOrder[1..], rank, key, rank', top);
      }
    case Clean(now) =>
      AscendingCleanup(s.accessOrder, rank, ExpiredKeys(s, now));
      AscendingSame(Without(s.accessOrder, ExpiredKeys(s, now)), rank, rank');
  }

  lemma {:induction false} RecencyStep(maxSize: nat, ops: seq<Op>, n: nat, s: CacheState)
    requires n < |ops| && s == After(maxSize, ops, n)
    requires InSync(Config(maxSize, true), s) && Ascending(s.accessOrder, Rank(maxSize, ops, n))
    ensures InSync(Config(maxSize, true), Apply(maxSize, s, ops[n]))
    ensures Ascending(Apply(maxSize, s, ops[n]).accessOrder, Rank(maxSize, ops, n + 1))
  {
    hide After, Apply, Rank, Ascending, InSync, RanksStep;
    RankStep(maxSize, ops, n);
    ApplyInSync(maxSize, s, ops[n]);
    ApplyAscends(maxSize, s, ops[n], Rank(maxSize, ops, n), Rank(maxSize, ops, n + 1), n);
  }

  /** The access order lists exactly the keys with an entry, from the least to the most recently
      stored or hit. */
  lemma {:induction false} OrderIsRecency(maxSize: nat, ops: seq<Op>, n: nat)
    requires n <= |ops|
    ensures InSync(Config(maxSize, true), After(maxSize, ops, n))
    ensures Ascending(After(maxSize, ops, n).accessOrder, Rank(maxSize, ops, n))
  {
    hide Apply, Rank, RanksStep, LastTouch;
    if n > 0 {
      OrderIsRecency(maxSize, ops, n - 1);
      RecencyStep(maxSize, ops, n - 1, After(maxSize, ops, n - 1));
    }
  }

  // ----- How long a key survives -----

  function TouchedBetween(maxSize: nat, ops: seq<Op>, from: nat, to: nat): set<Key>
    requires from <= to <= |ops|
  {
    set i | from <= i < to && !ops[i].Clean? && Touches(maxSize, ops, i, ops[i].key) :: ops[i].key
  }

  predicate ReadsClockAfter(op: Op, t: int) {
    !op.Store? && op.now > t
  }

  /** A key later in the access order than `key` has been touched since `key` was. */
  lemma LaterWasTouched(maxSize: nat, ops: seq<Op>, n: nat, p: nat, j: nat)
    requires n <= |ops| && 0 < j < |After(maxSize, ops, n).accessOrder|
    requires p < n && LastTouch(maxSize, ops, n, After(maxSize, ops, n).accessOrder[0]) == p
    ensures After(maxSize, ops, n).accessOrder[j] in TouchedBetween(maxSize, ops, p + 1, n)
  {
    OrderIsRecency(maxSize, ops, n);
    hide After;
    var order := After(maxSize, ops, n).accessOrder;
    assert Rank(maxSize, ops, n)(order[0]) < Rank(maxSize, ops, n)(order[j]);
    LastTouchTouches(maxSize, ops, n, order[j]);
    var i := LastTouch(maxSize, ops, n, order[j]);
    assert p < i < n && Touches(maxSize, ops, i, order[j]) && ops[i].key == order[j];
  }

  /** Every other key in the cache has outrun the least recently used one. */
  lemma OldestIsOutrun(maxSize: nat, ops: seq<Op>, n: nat, p: nat, key: Key)
    requires p < n <= |ops| && LastTouch(maxSize, ops, n, key) == p
    requires var s := After(maxSize, ops, n); s.accessOrder != [] && s.accessOrder[0] == key
    ensures After(maxSize, ops, n).entries.Keys - {key} <= TouchedBetween(maxSize, ops, p + 1, n)
    ensures |After(maxSize, ops, n).entries.Keys - {key}| == |After(maxSize, ops, n).entries| - 1
  {
    OrderIsRecency(maxSize, ops, n);
    hide After, LastTouch, TouchedBetween, Ascending;
    var s := After(maxSize, ops, n);
    forall k | k in s.entries.Keys - {key} ensures k in TouchedBetween(maxSize, ops, p + 1, n) {
      assert k in Elems(s.accessOrder);
      var j :| 0 <= j < |s.accessOrder| && s.accessOrder[j] == k;
      LaterWasTouched(maxSize, ops, n, p, j);
    }
    assert key in Elems(s.accessOrder);
    SubsetSize({key}, s.entries.Keys);
    assert |s.entries.Keys| == |s.entries|;
  }

  lemma EntrySurvivesStep(maxSize: nat, s: CacheState, op: Op, key: Key, expiresAt: int)
    requires key in s.entries && s.entries[key] == expiresAt && !ReadsClockAfter(op, expiresAt)
    requires op.Store? ==> op.key != key && (|s.entries| < maxSize || s.accessOrder == [] || s.accessOrder[0] != key)
    ensures var s' := Apply(maxSize, s, op); key in s'.entries && s'.entries[key] == expiresAt
  {
  }

  lemma TouchedBetweenGrows(maxSize: nat, ops: seq<Op>, from: nat, to: nat)
    requires from <= to < |ops|
    ensures TouchedBetween(maxSize, ops, from, to) <= TouchedBetween(maxSize, ops, from, to + 1)
    ensures |TouchedBetween(maxSize, ops, from, to)| <= |TouchedBetween(maxSize, ops, from, to + 1)|
    ensures ops[to].Store? ==> ops[to].key in TouchedBetween(maxSize, ops, from, to + 1)
  {
    SubsetSize(TouchedBetween(maxSize, ops, from, to), TouchedBetween(maxSize, ops, from, to + 1));
    assert ops[to].Store? ==> Touches(maxSize, ops, to, ops[to].key);
  }

  /** A key that already has an entry is stored. */
  predicate Restores(maxSize: nat, ops: seq<Op>, from: nat, to: nat)
    requires from <= to <= |ops|
  {
    exists i | from <= i < to :: ops[i].Store? && ops[i].key in After(maxSize, ops, i).entries
  }

  /** How many other keys may be touched before `key` can be evicted. */
  function Margin(maxSize: nat, ops: seq<Op>, from: nat, to: nat): int
    requires from <= to <= |ops|
  {
    if Restores(maxSize, ops, from, to) then maxSize - 2 else maxSize - 1
  }

  /** A store that finds the cache full and `key` at the end of its access order exceeds the margin. */
  lemma OldestIsOutOfMargin(maxSize: nat, ops: seq<Op>, n: nat, p: nat, key: Key)
    requires p < n < |ops| && ops[n].Store? && ops[n].key != key && LastTouch(maxSize, ops, n, key) == p
    requires var s := After(maxSize, ops, n); s.accessOrder != [] && s.accessOrder[0] == key && |s.entries| >= maxSize
    ensures |TouchedBetween(maxSize, ops, p + 1, n + 1)| > Margin(maxSize, ops, p + 1, n + 1)
  {
    hide After, LastTouch, TouchedBetween;
    var s, before, others :=
      After(maxSize, ops, n), TouchedBetween(maxSize, ops, p + 1, n), TouchedBetween(maxSize, ops, p + 1, n + 1);
    OldestIsOutrun(maxSize, ops, n, p, key);
    TouchedBetweenGrows(maxSize, ops, p + 1, n);
    SubsetSize(s.entries.Keys - {key}, others);
    if ops[n].key !in s.entries {
      SubsetSize(s.entries.Keys - {key} + {ops[n].key}, others);
    }
  }

  lemma MarginShrinks(maxSize: nat, ops: seq<Op>, from: nat, n: nat)
    requires from <= n < |ops|
    ensures Margin(maxSize, ops, from, n + 1) <= Margin(maxSize, ops, from, n)
  {
    hide After;
    assert Restores(maxSize, ops, from, n) ==> Restores(maxSize, ops, from, n + 1);
  }

  lemma AfterStep(maxSize: nat, ops: seq<Op>, n: nat)
    requires n < |ops|
    ensures After(maxSize, ops, n + 1) == Apply(maxSize, After(maxSize, ops, n), ops[n])
  {
  }

  /** A key is still there, with the expiry it had, as long as no clock reading passes that expiry and
      at most `maxSize - 1` distinct other keys have been stored or hit since its own latest touch, or
      `maxSize - 2` if a key was stored that had an entry already. */
  lemma {:induction false} RecentKeysSurvive(maxSize: nat, ops: seq<Op>, n: nat, p: nat, key: Key, expiresAt: int)
    requires p < n <= |ops| && LastTouch(maxSize, ops, n, key) == p
    requires key in After(maxSize, ops, p + 1).entries && After(maxSize, ops, p + 1).entries[key] == expiresAt
    requires forall i | p < i < n :: !ReadsClockAfter(ops[i], expiresAt)
    requires |TouchedBetween(maxSize, ops, p + 1, n)| <= Margin(maxSize, ops, p + 1, n)
    ensures key in After(maxSize, ops, n).entries && After(maxSize, ops, n).entries[key] == expiresAt
  {
    hide After, Apply, TouchedBetween, ReadsClockAfter, Margin;
    if n > p + 1 {
      var s, op := After(maxSize, ops, n - 1), ops[n - 1];
      AfterStep(maxSize, ops, n - 1);
      assert !Touches(maxSize, ops, n - 1, key);
      TouchedBetweenGrows(maxSize, ops, p + 1, n - 1);
      MarginShrinks(maxSize, ops, p + 1, n - 1);
      RecentKeysSurvive(maxSize, ops, n - 1, p, key, expiresAt);
      if op.Store? && s.accessOrder != [] && s.accessOrder[0] == key && |s.entries| >= maxSize {
        OldestIsOutOfMargin(maxSize, ops, n - 1, p, key);
      }
      EntrySurvivesStep(maxSize, s, op, key, expiresAt);
    }
  }

  /** Operation `i` stores another key in a full cache whose least recently used key is `key`. */
  predicate Evicts(maxSize: nat, ops: seq<Op>, i: nat, key: Key)
    requires i < |ops|
  {
    var s := After(maxSize, ops, i);
    ops[i].Store? && |s.entries| >= maxSize && s.accessOrder != [] && s.accessOrder[0] == key
  }

  lemma EntryIsLost(maxSize: nat, s: CacheState, op: Op, key: Key)
    requires op.Store? ==> op.key != key
    ensures key !in s.entries ==> key !in Apply(maxSize, s, op).entries
    ensures op.Store? && |s.entries| >= maxSize && s.accessOrder != [] && s.accessOrder[0] == key ==>
              key !in Apply(maxSize, s, op).entries
  {
  }

  /** And in any case: until a clock reading passes its expiry, a key is lost exactly by a store that finds
      the cache full and the key least recently used. */
  lemma {:induction false} SurvivesUnlessOldest(maxSize: nat, ops: seq<Op>, n: nat, p: nat, key: Key, expiresAt: int)
    requires p < n <= |ops| && LastTouch(maxSize, ops, n, key) == p
    requires key in After(maxSize, ops, p + 1).entries && After(maxSize, ops, p + 1).entries[key] == expiresAt
    requires forall i | p < i < n :: !ReadsClockAfter(ops[i], expiresAt)
    ensures key in After(maxSize, ops, n).entries <==> forall i | p < i < n :: !Evicts(maxSize, ops, i, key)
    ensures key in After(maxSize, ops, n).entries ==> After(maxSize, ops, n).entries[key] == expiresAt
  {
    hide After, Apply, ReadsClockAfter;
    if n > p + 1 {
      var s, op := After(maxSize, ops, n - 1), ops[n - 1];
      AfterStep(maxSize, ops, n - 1);
      assert !Touches(maxSize, ops, n - 1, key);
      SurvivesUnlessOldest(maxSize, ops, n - 1, p, key, expiresAt);
      EntryIsLost(maxSize, s, op, key);
      if key in s.entries && !Evicts(maxSize, ops, n - 1, key) { EntrySurvivesStep(maxSize, s, op, key, expiresAt); }
    }
  }

  /** Stores every key of `keys` once, and the last of them again. */
  function FillAndRepeat(keys: seq<Key>, expiresAt: int): seq<Op>
    requires keys != []
  {
    seq(|keys| + 1, i requires 0 <= i <= |keys| => Store(keys[if i < |keys| then i else i - 1], expiresAt))
  }

  function AllAt(keys: seq<Key>, expiresAt: int): map<Key, int> {
    map k | k in keys :: expiresAt
  }

  /** Storing an absent key where there is room. */
  lemma StoredInRoom(maxSize: nat, s: CacheState, key: Key, expiresAt: int)
    requires |s.entries| < maxSize && key !in s.accessOrder
    ensures LruMarked(maxSize, s, key, expiresAt) == CacheState(s.entries[key := expiresAt], s.accessOrder + [key])
  {
  }

  lemma OneMoreKey(keys: seq<Key>, expiresAt: int, n: nat)
    requires NoDup(keys) && 0 < n <= |keys|
    ensures keys[n - 1] !in keys[..n - 1] && keys[..n] == keys[..n - 1] + [keys[n - 1]]
    ensures AllAt(keys[..n], expiresAt) == AllAt(keys[..n - 1], expiresAt)[keys[n - 1] := expiresAt]
    ensures |AllAt(keys[..n], expiresAt)| == |AllAt(keys[..n - 1], expiresAt)| + 1
  {
    var before, key := keys[..n - 1], keys[n - 1];
    assert keys[..n] == before + [key];
    assert key !in before;
    EntriesPlusSize(AllAt(before, expiresAt), key, expiresAt);
    assert AllAt(keys[..n], expiresAt) == AllAt(before, expiresAt)[key := expiresAt];
  }

  lemma {:induction false} Filled(keys: seq<Key>, expiresAt: int, n: nat)
    requires NoDup(keys) && n <= |keys| && keys != []
    ensures After(|keys|, FillAndRepeat(keys, expiresAt), n) == CacheState(AllAt(keys[..n], expiresAt), keys[..n])
    ensures |AllAt(keys[..n], expiresAt)| == n
  {
    if n > 0 {
      var ops, key := FillAndRepeat(keys, expiresAt), keys[n - 1];
      assert ops[n - 1] == Store(key, expiresAt);
      hide LruMarked, AllAt, NoDup, FillAndRepeat, Queried, Cleaned;
      Filled(keys, expiresAt, n - 1);
      OneMoreKey(keys, expiresAt, n);
      StoredInRoom(|keys|, After(|keys|, ops, n - 1), key, expiresAt);
    }
  }

  lemma FillingTouches(keys: seq<Key>, expiresAt: int)
    requires NoDup(keys) && |keys| >= 2
    ensures TouchedBetween(|keys|, FillAndRepeat(keys, expiresAt), 1, |keys| + 1) == Elems(keys[1..])
  {
    var n, ops := |keys|, FillAndRepeat(keys, expiresAt);
    hide After;
    assert forall i | 0 <= i <= n :: Touches(n, ops, i, ops[i].key);
    forall k | k in Elems(keys[1..]) ensures k in TouchedBetween(n, ops, 1, n + 1) {
      var i :| 0 <= i < n - 1 && keys[1..][i] == k;
      assert ops[i + 1].key == k;
    }
  }

  /** Storing a key that is present evicts all the same: in a cache of any size from two on, the margin of
      `maxSize - 2` cannot be `maxSize - 1` then. */
  lemma {:induction false} StoringAgainEvicts(keys: seq<Key>, expiresAt: int)
    requires NoDup(keys) && |keys| >= 2
    ensures var n, ops := |keys|, FillAndRepeat(keys, expiresAt);
            && LastTouch(n, ops, n + 1, keys[0]) == 0 && keys[0] in After(n, ops, 1).entries
            && TouchedBetween(n, ops, 1, n + 1) == Elems(keys[1..]) && |Elems(keys[1..])| == n - 1
            && keys[0] !in After(n, ops, n + 1).entries
  {
    var n, ops := |keys|, FillAndRepeat(keys, expiresAt);
    Filled(keys, expiresAt, 1);
    Filled(keys, expiresAt, n);
    OnlyFirstTouches(keys, expiresAt, n + 1);
    FillingTouches(keys, expiresAt);
    NoDupCardinality(keys[1..]);
    hide LastTouch, TouchedBetween, Elems;
    assert keys[..n] == keys && keys[..1] == [keys[0]];
    assert After(n, ops, n + 1) == LruMarked(n, After(n, ops, n), keys[n - 1], expiresAt);
  }

  lemma {:induction false} OnlyFirstTouches(keys: seq<Key>, expiresAt: int, m: nat)
    requires NoDup(keys) && |keys| >= 2 && 1 <= m <= |keys| + 1
    ensures LastTouch(|keys|, FillAndRepeat(keys, expiresAt), m, keys[0]) == 0
  {
    if m > 1 { OnlyFirstTouches(keys, expiresAt, m - 1); }
  }
}
