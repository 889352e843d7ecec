/** Whole runs of processor calls that do not overlap, with cleanup ticks between them, over LRU caches:
    what a larger cache changes for the handler, and how long a key survives. */
module ServedRuns {
  import opened Orders
  import opened CacheModel

  // ----- A larger cache never asks the handler more often -----

  /** One call of a processor, with the clock at its check and at its mark and how its handler would
      answer; or one tick of the cleanup. */
  datatype Event = Access(key: Key, checkedAt: int, markedAt: int, ok: bool) | Tick(now: int)

  predicate CallsHandler(s: CacheState, e: Event) {
    e.Access? && Lookup(s, e.key, e.checkedAt) != Hit
  }

  /** The call ends with a mark of its key. */
  predicate Stores(s: CacheState, e: Event) {
    IsOk(e) && CallsHandler(s, e)
  }

  /** An access whose handler would succeed. */
  predicate IsOk(e: Event) {
    e.Access? && e.ok
  }

  /** The event compares the expiry of `k` with the clock, if `k` has an entry. */
  predicate Reads(e: Event, k: Key) {
    e.Tick? || e.key == k
  }

  function ClockOf(e: Event): int {
    match e case Access(_, checkedAt, _, _) => checkedAt case Tick(now) => now
  }

  function Serve(maxSize: nat, s: CacheState, e: Event): CacheState {
    var cfg := Config(maxSize, true);
    match e
    case Access(key, checkedAt, markedAt, _) =>
      var q := Queried(cfg, s, key, checkedAt);
      if Stores(s, e) then LruMarked(maxSize, q, key, markedAt + TTL) else q
    case Tick(now) => Cleaned(cfg, s, now)
  }

  function Served(maxSize: nat, trace: seq<Event>, n: nat): CacheState
    requires n <= |trace|
  {
    if n == 0 then EMPTY else Serve(maxSize, Served(maxSize, trace, n - 1), trace[n - 1])
  }

  function HandlerCalls(maxSize: nat, trace: seq<Event>, n: nat): nat
    requires n <= |trace|
  {
    if n == 0 then 0
    else HandlerCalls(maxSize, trace, n - 1) + if CallsHandler(Served(maxSize, trace, n - 1), trace[n - 1]) then 1 else 0
  }

  /** The event finds `k` expired in one cache and live in the other. */
  predicate SplitOn(dead: CacheState, alive: CacheState, e: Event, k: Key) {
    Reads(e, k) && Lookup(dead, k, ClockOf(e)) == Stale && Lookup(alive, k, ClockOf(e)) == Hit
  }

  /** Event `i` finds some key expired in the cache of size `dead` and live in the one of size `alive`. */
  ghost predicate ExpiredOnlyIn(dead: nat, alive: nat, trace: seq<Event>, i: nat)
    requires i < |trace|
  {
    exists k :: SplitOn(Served(dead, trace, i), Served(alive, trace, i), trace[i], k)
  }

  ghost predicate NeverExpiredOnlyIn(dead: nat, alive: nat, trace: seq<Event>, n: nat)
    requires n <= |trace|
  {
    forall i | 0 <= i < n :: !ExpiredOnlyIn(dead, alive, trace, i)
  }

  /** The larger cache calls the handler only where the smaller one does. */
  predicate CallsOnlyWhere(small: nat, large: nat, trace: seq<Event>, n: nat)
    requires n <= |trace|
  {
    forall i | 0 <= i < n ::
      CallsHandler(Served(large, trace, i), trace[i]) ==> CallsHandler(Served(small, trace, i), trace[i])
  }

  /** Successful accesses mark their keys in the order of the clock. */
  predicate MarksInOrder(trace: seq<Event>) {
    forall i, j | 0 <= i < j < |trace| && IsOk(trace[i]) && IsOk(trace[j]) :: trace[i].markedAt <= trace[j].markedAt
  }

  /** The smaller access order has been a subsequence of the larger all along. */
  predicate AlwaysSubsequence(small: nat, large: nat, trace: seq<Event>, n: nat)
    requires n <= |trace|
  {
    forall m | 0 <= m <= n :: Subsequence(Served(small, trace, m).accessOrder, Served(large, trace, m).accessOrder)
  }

  /** The smaller order is a subsequence of the larger, and the larger cache has at least as much room left. */
  ghost predicate Included(small: nat, s: CacheState, large: nat, l: CacheState) {
    && InSync(Config(small, true), s) && InSync(Config(large, true), l)
    && Subsequence(s.accessOrder, l.accessOrder)
    && |l.accessOrder| - |s.accessOrder| <= Capacity(large) - Capacity(small)
  }

  /** What both caches hold expires in the larger one no later. */
  ghost predicate NoLater(s: CacheState, l: CacheState) {
    forall k | k in s.entries && k in l.entries :: l.entries[k] <= s.entries[k]
  }

  lemma OrderSize(maxSize: nat, s: CacheState)
    requires InSync(Config(maxSize, true), s)
    ensures |s.accessOrder| == |s.entries| <= Capacity(maxSize)
    ensures forall k :: k in s.entries <==> k in s.accessOrder
  {
    NoDupCardinality(s.accessOrder);
    assert |s.entries.Keys| == |s.entries|;
    assert forall k :: k in s.entries <==> k in Elems(s.accessOrder);
  }

  lemma IncludedKeys(small: nat, s: CacheState, large: nat, l: CacheState, key: Key)
    requires Included(small, s, large, l) && key in s.entries
    ensures key in l.entries
  {
    SubsequenceKeys(small, s, large, l, key);
  }

  lemma SubsequenceKeys(small: nat, s: CacheState, large: nat, l: CacheState, key: Key)
    requires InSync(Config(small, true), s) && InSync(Config(large, true), l)
    requires Subsequence(s.accessOrder, l.accessOrder) && key in s.entries
    ensures key in l.entries
  {
    assert key in Elems(s.accessOrder);
    SubsequenceElems(s.accessOrder, l.accessOrder, key);
    assert key in Elems(l.accessOrder);
  }

  /** Both caches hit. */
  lemma BothHit(small: nat, s: CacheState, large: nat, l: CacheState, key: Key)
    requires Included(small, s, large, l) && key in s.entries
    ensures Included(small, Touched(Config(small, true), s, key), large, Touched(Config(large, true), l, key))
  {
    IncludedKeys(small, s, large, l, key);
    TouchedOrder(s.accessOrder, key);
    TouchedOrder(l.accessOrder, key);
    OrderSize(small, s);
    OrderSize(large, l);
    SubsequenceRemove(s.accessOrder, l.accessOrder, key);
    SubsequenceAppend(RemoveFirst(s.accessOrder, key), RemoveFirst(l.accessOrder, key), key);
  }

  /** The larger cache drops an expired key, and so does the smaller if it has the key. */
  lemma LargeDrops(small: nat, s: CacheState, large: nat, l: CacheState, key: Key)
    requires Included(small, s, large, l) && key in l.entries
    ensures Included(small, Deleted(Config(small, true), s, key), large, Deleted(Config(large, true), l, key))
    ensures key !in s.entries ==> Deleted(Config(small, true), s, key) == s
  {
    OrderSize(small, s);
    OrderSize(large, l);
    SubsequenceRemove(s.accessOrder, l.accessOrder, key);
    DeletedInSync(small, s, key);
    DeletedInSync(large, l, key);
    hide InSync, Subsequence;
  }

  lemma DeletedInSync(maxSize: nat, s: CacheState, key: Key)
    requires InSync(Config(maxSize, true), s)
    ensures InSync(Config(maxSize, true), Deleted(Config(maxSize, true), s, key))
    ensures key !in s.entries ==> Deleted(Config(maxSize, true), s, key) == s
  {
    RemoveFirstNoDup(s.accessOrder, key);
    OrderSize(maxSize, s);
    EntriesMinusSize(s.entries, key);
  }

  /** Storing a key the cache does not have, as an operation on the access order alone. */
  function Push(maxSize: nat, order: seq<Key>, key: Key): seq<Key> {
    (if |order| < Capacity(maxSize) then order else order[1..]) + [key]
  }

  lemma StoreIsPush(maxSize: nat, s: CacheState, key: Key, expiresAt: int)
    requires InSync(Config(maxSize, true), s) && key !in s.entries
    ensures InSync(Config(maxSize, true), LruMarked(maxSize, s, key, expiresAt))
    ensures LruMarked(maxSize, s, key, expiresAt).accessOrder == Push(maxSize, s.accessOrder, key)
  {
    OrderSize(maxSize, s);
    LruMarkedIsMarked(maxSize, s, key, 0, expiresAt, LruMarked(maxSize, s, key, expiresAt));
    MarkedInSync(Config(maxSize, true), s, key, 0, expiresAt, LruMarked(maxSize, s, key, expiresAt));
  }

  lemma PushKeepsInclusion(small: nat, a: seq<Key>, large: nat, b: seq<Key>, key: Key)
    requires small <= large && Subsequence(a, b) && |a| <= Capacity(small) && |b| <= Capacity(large)
    requires |b| - |a| <= Capacity(large) - Capacity(small)
    ensures Subsequence(Push(small, a, key), Push(large, b, key))
    ensures |Push(large, b, key)| - |Push(small, a, key)| <= Capacity(large) - Capacity(small)
  {
    if |a| < Capacity(small) {
      SubsequenceAppend(a, b, key);
    } else if |b| < Capacity(large) {
      SubsequenceTail(a, b);
      SubsequenceAppend(a[1..], b, key);
    } else {
      if a[0] != b[0] { SubsequenceTail(a, b[1..]); }
      SubsequenceAppend(a[1..], b[1..], key);
    }
  }

  /** The smaller cache misses where the larger hits. */
  lemma OnlyLargeHits(small: nat, s: CacheState, large: nat, l: CacheState, key: Key, expiresAt: int)
    requires Included(small, s, large, l) && key !in s.entries && key in l.entries
    ensures Included(small, s, large, Touched(Config(large, true), l, key))
    ensures Included(small, LruMarked(small, s, key, expiresAt), large, Touched(Config(large, true), l, key))
  {
    OrderSize(small, s);
    OrderSize(large, l);
    TouchedOrder(l.accessOrder, key);
    SubsequenceRemove(s.accessOrder, l.accessOrder, key);
    var rest := RemoveFirst(l.accessOrder, key);
    SubsequenceAppend(s.accessOrder, rest, key);
    StoreIsPush(small, s, key, expiresAt);
    if |s.accessOrder| == Capacity(small) {
      SubsequenceTail(s.accessOrder, rest);
      SubsequenceAppend(s.accessOrder[1..], rest, key);
    }
  }

  lemma {:induction false} BothStore(small: nat, s: CacheState, large: nat, l: CacheState, key: Key, expiresAt: int)
    requires small <= large && Included(small, s, large, l) && key !in l.entries && key !in s.entries
    ensures Included(small, LruMarked(small, s, key, expiresAt), large, LruMarked(large, l, key, expiresAt))
  {
    OrderSize(small, s);
    OrderSize(large, l);
    StoreIsPush(small, s, key, expiresAt);
    StoreIsPush(large, l, key, expiresAt);
    PushKeepsInclusion(small, s.accessOrder, large, l.accessOrder, key);
  }

  lemma {:induction false} AccessKeepsInclusion(small: nat, s: CacheState, large: nat, l: CacheState, e: Event)
    requires small <= large && Included(small, s, large, l) && e.Access?
    requires !SplitOn(l, s, e, e.key) && !SplitOn(s, l, e, e.key)
    ensures Included(small, Serve(small, s, e), large, Serve(large, l, e))
  {
    hide Included, Touched, Deleted, LruMarked, Cleaned;
    if e.key in s.entries { IncludedKeys(small, s, large, l, e.key); }
    var expiresAt := e.markedAt + TTL;
    match Lookup(l, e.key, e.checkedAt)
    case Hit =>
      if e.key in s.entries { BothHit(small, s, large, l, e.key); }
      else { OnlyLargeHits(small, s, large, l, e.key, expiresAt); }
    case Stale =>
      LargeDrops(small, s, large, l, e.key);
      var s', l' := Deleted(Config(small, true), s, e.key), Deleted(Config(large, true), l, e.key);
      assert e.key !in s'.entries && e.key !in l'.entries by { DeletedIsGone(s, e.key); DeletedIsGone(l, e.key); }
      if e.ok { BothStore(small, s', large, l', e.key, expiresAt); }
    case Absent =>
      if e.ok { BothStore(small, s, large, l, e.key, expiresAt); }
  }

  lemma SweptSize(maxSize: nat, s: CacheState, now: int)
    requires InSync(Config(maxSize, true), s)
    ensures var s' := Cleaned(Config(maxSize, true), s, now);
            InSync(Config(maxSize, true), s') && |s'.accessOrder| == |s.accessOrder| - |ExpiredKeys(s, now)|
  {
    var dead := ExpiredKeys(s, now);
    CleanedInSync(Config(maxSize, true), s, now);
    OrderSize(maxSize, s);
    OrderSize(maxSize, Cleaned(Config(maxSize, true), s, now));
    SubsetSize(dead, s.entries.Keys);
    assert (s.entries - dead).Keys == s.entries.Keys - dead;
    assert |s.entries.Keys| == |s.entries| && |(s.entries - dead).Keys| == |s.entries - dead|;
  }

  lemma TickKeepsInclusion(small: nat, s: CacheState, large: nat, l: CacheState, now: int)
    requires Included(small, s, large, l)
    requires forall k :: !SplitOn(l, s, Tick(now), k) && !SplitOn(s, l, Tick(now), k)
    ensures Included(small, Cleaned(Config(small, true), s, now), large, Cleaned(Config(large, true), l, now))
  {
    var ds, dl := ExpiredKeys(s, now), ExpiredKeys(l, now);
    forall k | k in s.accessOrder ensures k in ds <==> k in dl {
      OrderSize(small, s);
      IncludedKeys(small, s, large, l, k);
      assert !SplitOn(l, s, Tick(now), k) && !SplitOn(s, l, Tick(now), k);
    }
    SubsequenceWithout(s.accessOrder, l.accessOrder, ds, dl);
    SweptSize(small, s, now);
    SweptSize(large, l, now);
    assert ds <= dl by { OrderSize(small, s); }
    SubsetSize(ds, dl);
    hide InSync, Subsequence;
  }

  /** One event, unless it finds a key expired in one cache and live in the other. */
  lemma ServeKeepsInclusion(small: nat, s: CacheState, large: nat, l: CacheState, e: Event)
    requires small <= large && Included(small, s, large, l)
    requires forall k :: !SplitOn(l, s, e, k) && !SplitOn(s, l, e, k)
    ensures Included(small, Serve(small, s, e), large, Serve(large, l, e))
  {
    hide Included, Cleaned, Queried, SplitOn;
    match e
    case Access(key, _, _, _) =>
      assert !SplitOn(l, s, e, key) && !SplitOn(s, l, e, key);
      AccessKeepsInclusion(small, s, large, l, e);
    case Tick(now) => TickKeepsInclusion(small, s, large, l, now);
  }

  lemma DeletedIsGone(s: CacheState, key: Key)
    ensures forall cfg :: key !in Deleted(cfg, s, key).entries
  {
  }

  /** With no event finding a key expired in one cache and live in the other. */
  lemma {:induction false} ServedIncluded(small: nat, large: nat, trace: seq<Event>, n: nat)
    requires small <= large && n <= |trace|
    requires NeverExpiredOnlyIn(large, small, trace, n) && NeverExpiredOnlyIn(small, large, trace, n)
    ensures Included(small, Served(small, trace, n), large, Served(large, trace, n))
  {
    hide Serve, SplitOn;
    if n > 0 {
      ServedIncluded(small, large, trace, n - 1);
      assert !ExpiredOnlyIn(large, small, trace, n - 1) && !ExpiredOnlyIn(small, large, trace, n - 1);
      ServeKeepsInclusion(small, Served(small, trace, n - 1), large, Served(large, trace, n - 1), trace[n - 1]);
    }
  }

  lemma ServeEntry(maxSize: nat, s: CacheState, e: Event, k: Key)
    requires k in Serve(maxSize, s, e).entries
    ensures if Stores(s, e) && k == e.key then Serve(maxSize, s, e).entries[k] == e.markedAt + TTL
            else k in s.entries && Serve(maxSize, s, e).entries[k] == s.entries[k]
  {
  }

  /** Every entry was put there by a successful access to its key. */
  lemma {:induction false} ServedEntriesAreMarks(maxSize: nat, trace: seq<Event>, n: nat, k: Key)
    requires n <= |trace| && k in Served(maxSize, trace, n).entries
    ensures exists i | 0 <= i < n && IsOk(trace[i]) ::
              trace[i].key == k && Served(maxSize, trace, n).entries[k] == trace[i].markedAt + TTL
  {
    hide Serve;
    var s, e := Served(maxSize, trace, n - 1), trace[n - 1];
    ServeEntry(maxSize, s, e, k);
    if Stores(s, e) && k == e.key {
      assert IsOk(trace[n - 1]);
    } else {
      ServedEntriesAreMarks(maxSize, trace, n - 1, k);
    }
  }

  lemma {:induction false} ServeKeepsNoLater(small: nat, s: CacheState, large: nat, l: CacheState, e: Event)
    requires Included(small, s, large, l) && NoLater(s, l)
    requires forall k :: !SplitOn(l, s, e, k)
    requires IsOk(e) ==> forall k | k in l.entries :: l.entries[k] <= e.markedAt + TTL
    ensures NoLater(Serve(small, s, e), Serve(large, l, e))
  {
    var s', l' := Serve(small, s, e), Serve(large, l, e);
    if e.Access? && e.key in s.entries { IncludedKeys(small, s, large, l, e.key); }
    hide Included, Serve;
    forall k | k in s'.entries && k in l'.entries ensures l'.entries[k] <= s'.entries[k] {
      ServeEntry(small, s, e, k);
      ServeEntry(large, l, e, k);
      assert !SplitOn(l, s, e, k);
    }
  }

  /** What expires no later in the larger cache is not live there and expired in the smaller. */
  lemma NoLaterNoSplit(small: nat, s: CacheState, large: nat, l: CacheState, e: Event)
    requires Included(small, s, large, l) && NoLater(s, l)
    ensures forall k :: !SplitOn(s, l, e, k)
  {
  }

  /** With marks in the order of the clock, the other way round cannot happen first. */
  lemma {:induction false} MarksInOrderNoLater(small: nat, large: nat, trace: seq<Event>, n: nat)
    requires small <= large && n <= |trace| && MarksInOrder(trace)
    requires NeverExpiredOnlyIn(large, small, trace, n)
    ensures NeverExpiredOnlyIn(small, large, trace, n)
    ensures NoLater(Served(small, trace, n), Served(large, trace, n))
  {
    hide Serve, Included, SplitOn;
    if n > 0 {
      MarksInOrderNoLater(small, large, trace, n - 1);
      ServedIncluded(small, large, trace, n - 1);
      var s, l, e := Served(small, trace, n - 1), Served(large, trace, n - 1), trace[n - 1];
      NoLaterNoSplit(small, s, large, l, e);
      assert !ExpiredOnlyIn(large, small, trace, n - 1);
      forall k | IsOk(e) && k in l.entries ensures l.entries[k] <= e.markedAt + TTL {
        ServedEntriesAreMarks(large, trace, n - 1, k);
      }
      ServeKeepsNoLater(small, s, large, l, e);
    }
  }

  lemma LargerCallsAt(small: nat, s: CacheState, large: nat, l: CacheState, e: Event)
    requires Included(small, s, large, l) && CallsHandler(l, e) && !CallsHandler(s, e)
    ensures SplitOn(l, s, e, e.key)
  {
    if e.key in s.entries { IncludedKeys(small, s, large, l, e.key); }
  }

  lemma {:induction false} LargerCallsLess(small: nat, large: nat, trace: seq<Event>, n: nat)
    requires n <= |trace| && CallsOnlyWhere(small, large, trace, n)
    ensures HandlerCalls(large, trace, n) <= HandlerCalls(small, trace, n)
  {
    hide Served, CallsHandler;
    if n > 0 { LargerCallsLess(small, large, trace, n - 1); }
  }

  /** Inclusion for runs of any length in which no event finds a key expired in exactly one of the caches. */
  lemma InclusionUnlessExpired(small: nat, large: nat, trace: seq<Event>, n: nat)
    requires small <= large && n <= |trace|
    requires NeverExpiredOnlyIn(large, small, trace, n) && NeverExpiredOnlyIn(small, large, trace, n)
    ensures AlwaysSubsequence(small, large, trace, n)
    ensures CallsOnlyWhere(small, large, trace, n) && HandlerCalls(large, trace, n) <= HandlerCalls(small, trace, n)
  {
    hide Served, CallsHandler, HandlerCalls, Subsequence, Lookup;
    forall m | 0 <= m <= n
      ensures Subsequence(Served(small, trace, m).accessOrder, Served(large, trace, m).accessOrder)
    {
      ServedIncluded(small, large, trace, m);
    }
    forall i | 0 <= i < n
      ensures CallsHandler(Served(large, trace, i), trace[i]) ==> CallsHandler(Served(small, trace, i), trace[i])
    {
      NoExtraCall(small, large, trace, i);
    }
    LargerCallsLess(small, large, trace, n);
  }

  lemma NoExtraCall(small: nat, large: nat, trace: seq<Event>, i: nat)
    requires small <= large && i < |trace|
    requires NeverExpiredOnlyIn(large, small, trace, i + 1) && NeverExpiredOnlyIn(small, large, trace, i)
    ensures CallsHandler(Served(large, trace, i), trace[i]) ==> CallsHandler(Served(small, trace, i), trace[i])
  {
    hide Served;
    ServedIncluded(small, large, trace, i);
    assert !ExpiredOnlyIn(large, small, trace, i);
    var s, l := Served(small, trace, i), Served(large, trace, i);
    if CallsHandler(l, trace[i]) && !CallsHandler(s, trace[i]) { LargerCallsAt(small, s, large, l, trace[i]); }
  }

  lemma SplitTick(small: nat, s: CacheState, large: nat, l: CacheState, now: int, k: Key)
    requires InSync(Config(small, true), s) && InSync(Config(large, true), l) && SplitOn(l, s, Tick(now), k)
    ensures !Subsequence(Cleaned(Config(small, true), s, now).accessOrder, Cleaned(Config(large, true), l, now).accessOrder)
  {
    var s', l' := Cleaned(Config(small, true), s, now), Cleaned(Config(large, true), l, now);
    CleanedInSync(Config(small, true), s, now);
    CleanedInSync(Config(large, true), l, now);
    assert k in s'.entries && k !in l'.entries;
    hide InSync, Cleaned, Subsequence;
    if Subsequence(s'.accessOrder, l'.accessOrder) { SubsequenceKeys(small, s', large, l', k); }
  }

  /** An event that finds a key expired in the larger cache and live in the smaller costs the larger a
      handler call, or leaves the smaller with a key the larger no longer has. */
  lemma SplitBreaksInclusion(small: nat, large: nat, trace: seq<Event>, i: nat)
    requires i < |trace| && ExpiredOnlyIn(large, small, trace, i)
    ensures if trace[i].Access? then
              CallsHandler(Served(large, trace, i), trace[i]) && !CallsHandler(Served(small, trace, i), trace[i])
            else
              !Subsequence(Served(small, trace, i + 1).accessOrder, Served(large, trace, i + 1).accessOrder)
  {
    ServedStep(small, trace, i);
    ServedStep(large, trace, i);
    hide Served, Cleaned, InSync, Subsequence, Queried;
    var s, l := Served(small, trace, i), Served(large, trace, i);
    var k :| SplitOn(l, s, trace[i], k);
    ServedInSync(small, trace, i);
    ServedInSync(large, trace, i);
    if trace[i].Tick? { SplitTick(small, s, large, l, trace[i].now, k); }
  }

  /** Drive two LRU caches with the same accesses and cleanup ticks, over any time. The smaller access order
      is a subsequence of the larger all along, and the larger never makes a handler call that the smaller
      avoids, if and only if no access and no tick finds a key expired in the larger and live in the
      smaller. An access that does costs a call at once. */
  lemma {:induction false} LargerCacheIncludesSmaller(small: nat, large: nat, trace: seq<Event>, n: nat)
    requires small <= large && n <= |trace| && MarksInOrder(trace)
    ensures NeverExpiredOnlyIn(large, small, trace, n) <==>
            AlwaysSubsequence(small, large, trace, n) && CallsOnlyWhere(small, large, trace, n)
    ensures NeverExpiredOnlyIn(large, small, trace, n) ==>
              HandlerCalls(large, trace, n) <= HandlerCalls(small, trace, n)
    ensures CallsOnlyWhere(small, large, trace, n) ==>
              forall i | 0 <= i < n && trace[i].Access? :: !ExpiredOnlyIn(large, small, trace, i)
  {
    hide Served, HandlerCalls, Subsequence, ExpiredOnlyIn, CallsHandler;
    if NeverExpiredOnlyIn(large, small, trace, n) {
      MarksInOrderNoLater(small, large, trace, n);
      InclusionUnlessExpired(small, large, trace, n);
    }
    forall i | 0 <= i < n && ExpiredOnlyIn(large, small, trace, i)
      ensures trace[i].Access? ==> !CallsOnlyWhere(small, large, trace, n)
      ensures !AlwaysSubsequence(small, large, trace, n) || !CallsOnlyWhere(small, large, trace, n)
    {
      SplitBreaksInclusion(small, large, trace, i);
    }
  }

  /** At every later access or tick, the marks of a key by the successful accesses so far have either all
      expired or all not. So it is in any run no longer than one time to live, and in longer ones whose
      accesses to a key come in bursts that no tick and no access tells apart. */
  predicate MarksExpireTogether(trace: seq<Event>) {
    forall i, j, m | 0 <= i < m && 0 <= j < m < |trace| && IsOk(trace[i]) && IsOk(trace[j])
                     && trace[i].key == trace[j].key && Reads(trace[m], trace[i].key) ::
      Expired(trace[i].markedAt + TTL, ClockOf(trace[m])) ==> Expired(trace[j].markedAt + TTL, ClockOf(trace[m]))
  }

  /** The condition can be read off the accesses and ticks, whatever the order of the clock readings. */
  lemma InclusionWhenMarksExpireTogether(small: nat, large: nat, trace: seq<Event>, n: nat)
    requires small <= large && n <= |trace| && MarksExpireTogether(trace)
    ensures AlwaysSubsequence(small, large, trace, n)
    ensures CallsOnlyWhere(small, large, trace, n) && HandlerCalls(large, trace, n) <= HandlerCalls(small, trace, n)
  {
    hide Served, HandlerCalls, Subsequence, CallsOnlyWhere, AlwaysSubsequence, MarksExpireTogether;
    forall i | 0 <= i < n
      ensures !ExpiredOnlyIn(large, small, trace, i) && !ExpiredOnlyIn(small, large, trace, i)
    {
      NoSplit(large, small, trace, i);
      NoSplit(small, large, trace, i);
    }
    InclusionUnlessExpired(small, large, trace, n);
  }

  lemma NoSplit(dead: nat, alive: nat, trace: seq<Event>, m: nat)
    requires m < |trace| && MarksExpireTogether(trace)
    ensures !ExpiredOnlyIn(dead, alive, trace, m)
  {
    hide Served;
    if k :| SplitOn(Served(dead, trace, m), Served(alive, trace, m), trace[m], k) {
      ServedEntriesAreMarks(dead, trace, m, k);
      ServedEntriesAreMarks(alive, trace, m, k);
    }
  }

  lemma StoreInRoom(maxSize: nat, s: CacheState, key: Key, at: int)
    requires key !in s.entries && key !in s.accessOrder && |s.entries| < maxSize
    ensures Serve(maxSize, s, Access(key, at, at, true)) ==
            CacheState(s.entries[key := at + TTL], s.accessOrder + [key])
  {
    hide Cleaned;
  }

  lemma StoreInSizeOne(first: Key, expiresAt: int, key: Key, at: int)
    requires key != first
    ensures Serve(1, CacheState(map[first := expiresAt], [first]), Access(key, at, at, true)) ==
            CacheState(map[key := at + TTL], [key])
  {
    hide Cleaned;
    assert (map[first := expiresAt] - {first})[key := at + TTL] == map[key := at + TTL];
  }

  lemma HitOldest(maxSize: nat, entries: map<Key, int>, a: Key, b: Key, at: int)
    requires a != b && a in entries && !Expired(entries[a], at)
    ensures Serve(maxSize, CacheState(entries, [a, b]), Access(a, at, at, true)) == CacheState(entries, [b, a])
  {
    hide Cleaned, LruMarked;
    RemoveFirstCons(a, [b], a);
    assert [a] + [b] == [a, b];
  }

  /** The larger cache keeps the first mark of `a`; the smaller loses it and renews it. */
  lemma MarkRenewed(a: Key, b: Key, trace: seq<Event>)
    requires a != b && |trace| >= 3
    requires trace[0] == Access(a, 0, 0, true) && trace[1] == Access(b, 1, 1, true) && trace[2] == Access(a, 2, 2, true)
    ensures Served(1, trace, 3) == CacheState(map[a := TTL + 2], [a])
    ensures Served(2, trace, 3) == CacheState(map[a := TTL, b := TTL + 1], [b, a])
    ensures Served(2, trace, 0) == EMPTY && Served(2, trace, 1) == CacheState(map[a := TTL], [a])
    ensures Served(2, trace, 2) == CacheState(map[a := TTL, b := TTL + 1], [a, b])
  {
    hide Serve;
    FirstAccess(1, a, trace);
    FirstAccess(2, a, trace);
    ServedStep(1, trace, 1);
    ServedStep(1, trace, 2);
    ServedStep(2, trace, 1);
    ServedStep(2, trace, 2);
    hide Served;
    StoreInSizeOne(a, TTL, b, 1);
    StoreInSizeOne(b, TTL + 1, a, 2);
    StoreSecond(a, b);
    HitOldest(2, map[a := TTL, b := TTL + 1], a, b, 2);
  }

  lemma FirstAccess(maxSize: nat, a: Key, trace: seq<Event>)
    requires maxSize >= 1 && |trace| >= 1 && trace[0] == Access(a, 0, 0, true)
    ensures Served(maxSize, trace, 0) == EMPTY && Served(maxSize, trace, 1) == CacheState(map[a := TTL], [a])
  {
    ServedStep(maxSize, trace, 0);
    assert Served(maxSize, trace, 0) == EMPTY;
    hide Served, Serve;
    StoreInRoom(maxSize, EMPTY, a, 0);
    assert EMPTY.entries[a := TTL] == map[a := TTL];
  }

  lemma StoreSecond(a: Key, b: Key)
    requires a != b
    ensures Serve(2, CacheState(map[a := TTL], [a]), Access(b, 1, 1, true)) ==
            CacheState(map[a := TTL, b := TTL + 1], [a, b])
  {
    hide Serve;
    StoreInRoom(2, CacheState(map[a := TTL], [a]), b, 1);
  }

  /** Past one time to live the inclusion is lost: the larger cache can call the handler for a key
      whose mark the smaller one, having evicted it once, renewed in between. */
  lemma InclusionNeedsTheTtl(a: Key, b: Key)
    requires a != b
    ensures var trace :=
              [Access(a, 0, 0, true), Access(b, 1, 1, true), Access(a, 2, 2, true), Access(a, TTL + 1, TTL + 1, true)];
            CallsHandler(Served(2, trace, 3), trace[3]) && !CallsHandler(Served(1, trace, 3), trace[3])
  {
    hide Served;
    MarkRenewed(
      a, b, [Access(a, 0, 0, true), Access(b, 1, 1, true), Access(a, 2, 2, true), Access(a, TTL + 1, TTL + 1, true)]);
  }

  /** A tick alone is enough: it sweeps from the larger cache a mark the smaller has renewed, and no access
      to the larger finds its key expired. */
  lemma TickBreaksInclusion(a: Key, b: Key, trace: seq<Event>)
    requires a != b
    requires trace == [Access(a, 0, 0, true), Access(b, 1, 1, true), Access(a, 2, 2, true), Tick(TTL + 1),
                       Access(a, TTL + 1, TTL + 1, true)]
    ensures CallsHandler(Served(2, trace, 4), trace[4]) && !CallsHandler(Served(1, trace, 4), trace[4])
    ensures forall i | 0 <= i < 5 && trace[i].Access? ::
              Lookup(Served(2, trace, i), trace[i].key, trace[i].checkedAt) != Stale
  {
    MarkRenewed(a, b, trace);
    ServedStep(1, trace, 3);
    ServedStep(2, trace, 3);
    assert EMPTY.entries == map[];
    hide Served;
    SweptAt(Served(1, trace, 3), TTL + 1, a);
    SweptAt(Served(2, trace, 3), TTL + 1, a);
    hide Cleaned, Serve;
    forall i | 0 <= i < 5 && trace[i].Access?
      ensures Lookup(Served(2, trace, i), trace[i].key, trace[i].checkedAt) != Stale
    {
      assert i == 0 || i == 1 || i == 2 || i == 4;
    }
  }

  lemma SweptAt(s: CacheState, now: int, key: Key)
    ensures forall maxSize ::
              var s' := Serve(maxSize, s, Tick(now));
              && (key in s'.entries <==> key in s.entries && !Expired(s.entries[key], now))
              && (key in s'.entries ==> s'.entries[key] == s.entries[key])
  {
  }

  // ----- How long a key survives when only processors store -----

  /** The part of an access order behind `key`. */
  function Behind(order: seq<Key>, key: Key): seq<Key> {
    if order == [] then [] else if order[0] == key then order[1..] else Behind(order[1..], key)
  }

  lemma {:induction false} BehindAppend(order: seq<Key>, key: Key, k: Key)
    requires key in order
    ensures Behind(order + [k], key) == Behind(order, key) + [k]
  {
    assert (order + [k])[1..] == order[1..] + [k];
    if order[0] != key { BehindAppend(order[1..], key, k); }
  }

  lemma {:induction false} BehindRemove(order: seq<Key>, key: Key, k: Key)
    requires NoDup(order) && k != key && key in order
    ensures Elems(Behind(RemoveFirst(order, k), key)) == Elems(Behind(order, key)) - {k}
  {
    assert order == [order[0]] + order[1..];
    if order[0] == key {
      RemoveFirstNoDup(order[1..], k);
    } else if order[0] == k {
      BehindSubset(order[1..], key);
      assert k !in order[1..];
    } else {
      BehindRemove(order[1..], key, k);
    }
  }

  lemma {:induction false} BehindSubset(order: seq<Key>, key: Key)
    ensures |Behind(order, key)| <= |order| && forall k | k in Behind(order, key) :: k in order
    ensures key in order ==> |Behind(order, key)| < |order|
    ensures NoDup(order) ==> NoDup(Behind(order, key))
  {
    if order != [] && order[0] != key { BehindSubset(order[1..], key); }
  }

  lemma BehindTouch(order: seq<Key>, key: Key, k: Key)
    requires NoDup(order) && k != key && key in order
    ensures Elems(Behind(RemoveFirst(order, k) + [k], key)) == Elems(Behind(order, key)) + {k}
  {
    hide Behind, NoDup, Elems;
    BehindRemove(order, key, k);
    BehindAppend(RemoveFirst(order, k), key, k);
    ElemsSnoc(Behind(RemoveFirst(order, k), key), k);
  }

  /** Storing an absent key: either `key` stays and `k` comes behind it, or the cache was full behind `key`. */
  lemma BehindPush(maxSize: nat, order: seq<Key>, key: Key, k: Key)
    requires NoDup(order) && key in order && k !in order && |order| <= Capacity(maxSize)
    ensures key in Push(maxSize, order, k) ==>
              Elems(Behind(Push(maxSize, order, k), key)) == Elems(Behind(order, key)) + {k}
    ensures key !in Push(maxSize, order, k) ==> |Elems(Behind(order, key)) + {k}| >= Capacity(maxSize)
  {
    BehindSubset(order, key);
    if |order| < Capacity(maxSize) {
      BehindAppend(order, key, k);
    } else if order[0] == key {
      assert order == [key] + order[1..];
      NoDupCardinality(order[1..]);
    } else {
      BehindAppend(order[1..], key, k);
    }
  }

  /** The event stores its key or finds it live. */
  predicate TouchesOwnKey(s: CacheState, e: Event) {
    e.Access? && (!CallsHandler(s, e) || e.ok)
  }

  function KeysTouched(maxSize: nat, trace: seq<Event>, from: nat, to: nat): set<Key>
    requires from <= to <= |trace|
  {
    set i | from <= i < to && TouchesOwnKey(Served(maxSize, trace, i), trace[i]) :: trace[i].key
  }

  ghost predicate FindsNoneStale(s: CacheState, e: Event) {
    forall k | Reads(e, k) :: Lookup(s, k, ClockOf(e)) != Stale
  }

  /** No access and no tick finds a key expired. */
  ghost predicate NoneStale(maxSize: nat, trace: seq<Event>, from: nat, to: nat)
    requires from <= to <= |trace|
  {
    forall i | from <= i < to :: FindsNoneStale(Served(maxSize, trace, i), trace[i])
  }

  predicate SweepsAfter(e: Event, expiresAt: int) {
    e.Tick? && Expired(expiresAt, e.now)
  }

  predicate TickAfter(trace: seq<Event>, from: nat, to: nat, expiresAt: int)
    requires from <= to <= |trace|
  {
    exists i | from <= i < to :: SweepsAfter(trace[i], expiresAt)
  }

  lemma {:induction false} ServeInSync(maxSize: nat, s: CacheState, e: Event)
    requires InSync(Config(maxSize, true), s)
    ensures InSync(Config(maxSize, true), Serve(maxSize, s, e))
  {
    hide Queried, LruMarked, InSync, Cleaned;
    match e
    case Access(key, checkedAt, markedAt, _) =>
      var q, expiresAt := Queried(Config(maxSize, true), s, key, checkedAt), markedAt + TTL;
      QueriedInSync(Config(maxSize, true), s, key, checkedAt);
      LruMarkedIsMarked(maxSize, q, key, 0, expiresAt, LruMarked(maxSize, q, key, expiresAt));
      MarkedInSync(Config(maxSize, true), q, key, 0, expiresAt, LruMarked(maxSize, q, key, expiresAt));
    case Tick(now) => CleanedInSync(Config(maxSize, true), s, now);
  }

  /** One access to another key, given what has been touched since `key` was. */
  lemma {:induction false} AccessBehind(maxSize: nat, s: CacheState, e: Event, key: Key, touched: set<Key>)
    requires InSync(Config(maxSize, true), s) && key in s.entries && e.Access? && e.key != key
    requires Elems(Behind(s.accessOrder, key)) <= touched
    ensures var s' := Serve(maxSize, s, e);
            var touched' := if TouchesOwnKey(s, e) then touched + {e.key} else touched;
            && (key !in s'.entries ==> |touched'| >= Capacity(maxSize))
            && (key in s'.entries ==>
                  && s'.entries[key] == s.entries[key] && Elems(Behind(s'.accessOrder, key)) <= touched'
                  && (Elems(Behind(s.accessOrder, key)) == touched && Lookup(s, e.key, e.checkedAt) != Stale ==>
                        Elems(Behind(s'.accessOrder, key)) == touched'))
  {
    ServeInSync(maxSize, s, e);
    var cfg, q := Config(maxSize, true), Queried(Config(maxSize, true), s, e.key, e.checkedAt);
    QueriedInSync(cfg, s, e.key, e.checkedAt);
    OrderSize(maxSize, s);
    OrderSize(maxSize, q);
    OrderSize(maxSize, Serve(maxSize, s, e));
    hide InSync, LruMarked, NoDup, Elems, Push, Behind, Cleaned;
    assert NoDup(s.accessOrder) && NoDup(q.accessOrder) by { InSyncOrder(cfg, s); InSyncOrder(cfg, q); }
    if !CallsHandler(s, e) {
      BehindTouch(s.accessOrder, key, e.key);
    } else {
      if Lookup(s, e.key, e.checkedAt) == Stale { BehindRemove(s.accessOrder, key, e.key); }
      if e.ok {
        StoreIsPush(maxSize, q, e.key, e.markedAt + TTL);
        BehindPush(maxSize, q.accessOrder, key, e.key);
        var behind := Elems(Behind(q.accessOrder, key)) + {e.key};
        SubsetSize(behind, touched + {e.key});
        if key in Serve(maxSize, s, e).entries { ServeEntry(maxSize, s, e, key); }
      }
    }
  }

  lemma {:induction false} BehindWithout(order: seq<Key>, key: Key, dead: set<Key>)
    requires key in order && key !in dead
    ensures Elems(Behind(Without(order, dead), key)) == Elems(Behind(order, key)) - dead
  {
    assert order == [order[0]] + order[1..];
    if order[0] == key {
      assert Without(order, dead)[1..] == Without(order[1..], dead);
    } else {
      BehindWithout(order[1..], key, dead);
      if order[0] in dead {
        assert Without(order, dead) == Without(order[1..], dead);
      } else {
        assert Without(order, dead)[1..] == Without(order[1..], dead);
      }
    }
  }

  /** A tick leaves the other live keys behind a live one. */
  lemma TickBehind(maxSize: nat, s: CacheState, now: int, key: Key)
    requires InSync(Config(maxSize, true), s) && key in s.entries
    ensures var s' := Cleaned(Config(maxSize, true), s, now);
            && (key in s'.entries <==> !Expired(s.entries[key], now))
            && (key in s'.entries ==>
                  && s'.entries[key] == s.entries[key]
                  && Elems(Behind(s'.accessOrder, key)) <= Elems(Behind(s.accessOrder, key))
                  && (FindsNoneStale(s, Tick(now)) ==> s'.accessOrder == s.accessOrder))
  {
    var dead := ExpiredKeys(s, now);
    OrderSize(maxSize, s);
    if key !in dead { BehindWithout(s.accessOrder, key, dead); }
    if FindsNoneStale(s, Tick(now)) {
      forall k ensures k !in dead { assert Reads(Tick(now), k); }
      assert dead == {};
      WithoutNone(s.accessOrder);
    }
  }

  lemma InSyncOrder(cfg: Config, s: CacheState)
    requires cfg.enableLRU && InSync(cfg, s)
    ensures NoDup(s.accessOrder)
  {
  }

  lemma KeysTouchedStep(maxSize: nat, trace: seq<Event>, from: nat, n: nat)
    requires from <= n < |trace|
    ensures var s, e, touched := Served(maxSize, trace, n), trace[n], KeysTouched(maxSize, trace, from, n);
            && KeysTouched(maxSize, trace, from, n + 1) ==
               (if TouchesOwnKey(s, e) then touched + {e.key} else touched)
            && |touched| <= |KeysTouched(maxSize, trace, from, n + 1)|
  {
    hide Served, CallsHandler;
    SubsetSize(KeysTouched(maxSize, trace, from, n), KeysTouched(maxSize, trace, from, n + 1));
  }

  lemma NoneStaleStep(maxSize: nat, trace: seq<Event>, from: nat, n: nat)
    requires from <= n < |trace|
    ensures NoneStale(maxSize, trace, from, n + 1) <==>
            NoneStale(maxSize, trace, from, n) && FindsNoneStale(Served(maxSize, trace, n), trace[n])
  {
    hide Served, FindsNoneStale;
  }

  lemma TickAfterStep(trace: seq<Event>, from: nat, n: nat, expiresAt: int)
    requires from <= n < |trace|
    ensures TickAfter(trace, from, n + 1, expiresAt) <==>
            TickAfter(trace, from, n, expiresAt) || SweepsAfter(trace[n], expiresAt)
  {
  }

  /** Where `key` is after events for other keys: evicted, which takes as many keys as the capacity, or
      swept, which takes a tick that finds it expired; or in front of some of those touched since, and of
      all of them if nothing was found expired. */
  ghost predicate Follows(
    maxSize: nat, s: CacheState, key: Key, expiresAt: int, touched: set<Key>, exact: bool, swept: bool)
  {
    && (key !in s.entries ==> |touched| >= Capacity(maxSize) || (swept && !exact))
    && (key in s.entries ==>
          && s.entries[key] == expiresAt && Elems(Behind(s.accessOrder, key)) <= touched
          && (exact ==> Elems(Behind(s.accessOrder, key)) == touched))
  }

  lemma FollowsStep(
    maxSize: nat, s: CacheState, e: Event, key: Key, expiresAt: int, touched: set<Key>, exact: bool, swept: bool,
    touched': set<Key>)
    requires InSync(Config(maxSize, true), s) && Follows(maxSize, s, key, expiresAt, touched, exact, swept)
    requires e.Access? ==> e.key != key
    requires touched' == (if TouchesOwnKey(s, e) then touched + {e.key} else touched) && |touched| <= |touched'|
    ensures Follows(maxSize, Serve(maxSize, s, e), key, expiresAt, touched',
                    exact && FindsNoneStale(s, e), swept || SweepsAfter(e, expiresAt))
  {
    hide Serve, Lookup, CallsHandler, Behind, InSync;
    if key in s.entries {
      if e.Access? {
        assert FindsNoneStale(s, e) ==> Lookup(s, e.key, e.checkedAt) != Stale by { assert Reads(e, e.key); }
        AccessBehind(maxSize, s, e, key, touched);
      } else {
        SweepKeepsFollowing(maxSize, s, e.now, key, expiresAt, touched, exact, swept);
      }
    } else if key in Serve(maxSize, s, e).entries {
      ServeEntry(maxSize, s, e, key);
    }
  }

  lemma SweepKeepsFollowing(
    maxSize: nat, s: CacheState, now: int, key: Key, expiresAt: int, touched: set<Key>, exact: bool, swept: bool)
    requires InSync(Config(maxSize, true), s) && key in s.entries
    requires Follows(maxSize, s, key, expiresAt, touched, exact, swept)
    ensures Follows(maxSize, Serve(maxSize, s, Tick(now)), key, expiresAt, touched,
                    exact && FindsNoneStale(s, Tick(now)), swept || SweepsAfter(Tick(now), expiresAt))
  {
    hide InSync, Behind, Cleaned;
    TickBehind(maxSize, s, now, key);
    if Expired(expiresAt, now) { assert Reads(Tick(now), key) && Lookup(s, key, now) == Stale; }
  }

  lemma FollowsAtFirst(maxSize: nat, s: CacheState, key: Key, exact: bool, swept: bool)
    requires key in s.entries && Behind(s.accessOrder, key) == []
    ensures Follows(maxSize, s, key, s.entries[key], {}, exact, swept)
  {
  }

  lemma {:induction false} ServedFollows(maxSize: nat, trace: seq<Event>, p: nat, n: nat, key: Key)
    requires p < n <= |trace| && trace[p].Access? && trace[p].key == key
    requires key in Served(maxSize, trace, p + 1).entries
    requires forall i | p < i < n && trace[i].Access? :: trace[i].key != key
    ensures var expiresAt := Served(maxSize, trace, p + 1).entries[key];
            Follows(maxSize, Served(maxSize, trace, n), key, expiresAt, KeysTouched(maxSize, trace, p + 1, n),
                    NoneStale(maxSize, trace, p + 1, n), TickAfter(trace, p + 1, n, expiresAt))
  {
    hide Served, Serve, Lookup, TouchesOwnKey, InSync, KeysTouched, Follows, NoneStale, Behind, TickAfter, SweepsAfter,
      FindsNoneStale;
    var expiresAt := Served(maxSize, trace, p + 1).entries[key];
    if n == p + 1 {
      LastServed(maxSize, trace, p);
      NothingTouched(maxSize, trace, n);
      FollowsAtFirst(maxSize, Served(maxSize, trace, n), key, NoneStale(maxSize, trace, n, n),
                     TickAfter(trace, n, n, expiresAt));
    } else {
      var s, e := Served(maxSize, trace, n - 1), trace[n - 1];
      ServedFollows(maxSize, trace, p, n - 1, key);
      ServedStep(maxSize, trace, n - 1);
      ServedInSync(maxSize, trace, n - 1);
      KeysTouchedStep(maxSize, trace, p + 1, n - 1);
      NoneStaleStep(maxSize, trace, p + 1, n - 1);
      TickAfterStep(trace, p + 1, n - 1, expiresAt);
      FollowsStep(maxSize, s, e, key, expiresAt, KeysTouched(maxSize, trace, p + 1, n - 1),
                  NoneStale(maxSize, trace, p + 1, n - 1), TickAfter(trace, p + 1, n - 1, expiresAt),
                  KeysTouched(maxSize, trace, p + 1, n));
    }
  }

  lemma NothingTouched(maxSize: nat, trace: seq<Event>, n: nat)
    requires n <= |trace|
    ensures KeysTouched(maxSize, trace, n, n) == {}
  {
  }

  lemma ServedStep(maxSize: nat, trace: seq<Event>, n: nat)
    requires n < |trace|
    ensures Served(maxSize, trace, n + 1) == Serve(maxSize, Served(maxSize, trace, n), trace[n])
  {
  }

  lemma {:induction false} ServedInSync(maxSize: nat, trace: seq<Event>, n: nat)
    requires n <= |trace|
    ensures InSync(Config(maxSize, true), Served(maxSize, trace, n))
  {
    hide Serve;
    if n > 0 {
      ServedInSync(maxSize, trace, n - 1);
      ServeInSync(maxSize, Served(maxSize, trace, n - 1), trace[n - 1]);
    }
  }

  /** A key with an entry after an access to it is the most recently used. */
  lemma LastServed(maxSize: nat, trace: seq<Event>, p: nat)
    requires p < |trace| && trace[p].Access? && trace[p].key in Served(maxSize, trace, p + 1).entries
    ensures Behind(Served(maxSize, trace, p + 1).accessOrder, trace[p].key) == []
  {
    var s, e := Served(maxSize, trace, p), trace[p];
    var q := Queried(Config(maxSize, true), s, e.key, e.checkedAt);
    ServedInSync(maxSize, trace, p);
    QueriedInSync(Config(maxSize, true), s, e.key, e.checkedAt);
    OrderSize(maxSize, s);
    OrderSize(maxSize, q);
    RemoveFirstNoDup(s.accessOrder, e.key);
    if CallsHandler(s, e) {
      StoreIsPush(maxSize, q, e.key, e.markedAt + TTL);
      BehindLast(Push(maxSize, q.accessOrder, e.key), e.key);
    } else {
      BehindLast(RemoveFirst(s.accessOrder, e.key) + [e.key], e.key);
    }
  }

  lemma {:induction false} BehindLast(order: seq<Key>, key: Key)
    requires order != [] && order[|order| - 1] == key && key !in order[..|order| - 1]
    ensures Behind(order, key) == []
  {
    if |order| > 1 {
      assert order[0] == order[..|order| - 1][0];
      assert order[1..][..|order| - 2] == order[..|order| - 1][1..];
      BehindLast(order[1..], key);
    }
  }

  /** Processors that do not overlap store only absent keys, so a key keeps its entry, with its expiry, as
      long as fewer other keys than the capacity have been stored or hit since and no tick comes after that
      expiry. Where no access and no tick has found a key expired, it does so exactly as long as fewer other
      keys than the capacity have been stored or hit. */
  lemma ServedKeysSurvive(maxSize: nat, trace: seq<Event>, p: nat, n: nat, key: Key)
    requires p < n <= |trace| && trace[p].Access? && trace[p].key == key
    requires key in Served(maxSize, trace, p + 1).entries
    requires forall i | p < i < n && trace[i].Access? :: trace[i].key != key
    ensures var s, expiresAt := Served(maxSize, trace, n), Served(maxSize, trace, p + 1).entries[key];
            var room := |KeysTouched(maxSize, trace, p + 1, n)| < Capacity(maxSize);
            && (room && !TickAfter(trace, p + 1, n, expiresAt) ==> key in s.entries)
            && (key in s.entries ==> s.entries[key] == expiresAt)
            && (NoneStale(maxSize, trace, p + 1, n) ==> (key in s.entries <==> room))
  {
    hide Served, KeysTouched, NoneStale, TickAfter;
    ServedFollows(maxSize, trace, p, n, key);
    ServedInSync(maxSize, trace, n);
    var s := Served(maxSize, trace, n);
    OrderSize(maxSize, s);
    BehindSubset(s.accessOrder, key);
    NoDupCardinality(Behind(s.accessOrder, key));
  }
}
