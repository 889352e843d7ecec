/** Concurrent processor calls over one in-memory cache: check, handler, mark. Each call is a series
    of steps that interleave freely with those of other calls, with cleanup ticks and with lookups
    made outside any call. The handler is not nil. */
module DedupProtocol {
  import opened Orders
  import opened CacheModel
  import opened CacheSteps

  /** Where a call is: its check found the key live or expired and still owes a cache section, its
      check said "not processed", its handler succeeded, or it has returned. */
  datatype Phase = OwesPromotion | OwesDelete | Checked | Handled | Done

  datatype Call = Call(key: Key, phase: Phase)

  datatype World = World(sys: System, calls: map<nat, Call>)

  datatype Event =
    | Begin(id: nat, key: Key, now: int)
    | Resume(id: nat)
    | Handle(id: nat, ok: bool)
    | Abandon(id: nat)
    | Finish(id: nat, now: int, at: int)
    | Outside(step: Step)

  const IDLE := World(START, map[])

  predicate InPhase(w: World, id: nat, phase: Phase) {
    id in w.calls && w.calls[id].phase == phase
  }

  /** `Outside` is everything but a mark: only calls mark keys. */
  predicate Enabled(w: World, e: Event) {
    match e
    case Begin(id, _, _) => id !in w.calls
    case Resume(id) => InPhase(w, id, OwesPromotion) || InPhase(w, id, OwesDelete)
    case Handle(id, _) => InPhase(w, id, Checked)
    case Abandon(id) => InPhase(w, id, Checked)
    case Finish(id, _, _) => InPhase(w, id, Handled)
    case Outside(step) => !step.Mark?
  }

  function CacheStep(w: World, e: Event): Step
    requires Enabled(w, e)
  {
    match e
    case Begin(_, key, now) => Read(key, now)
    case Resume(id) =>
      var call := w.calls[id];
      Land(if call.phase == OwesDelete then Drop(call.key) else Promote(call.key))
    case Handle(_, _) => Pause
    case Abandon(_) => Pause
    case Finish(id, now, at) => Mark(w.calls[id].key, now, at, TTL)
    case Outside(step) => step
  }

  function Advance(w: World, id: nat, phase: Phase): map<nat, Call>
    requires id in w.calls
  {
    w.calls[id := w.calls[id].(phase := phase)]
  }

  function CallsAfter(cfg: Config, w: World, e: Event): map<nat, Call>
    requires Enabled(w, e)
  {
    match e
    case Begin(id, key, now) =>
      w.calls[id := Call(key, match Lookup(w.sys.cache, key, now)
                              case Absent => Checked
                              case Stale => OwesDelete
                              case Hit => if cfg.enableLRU then OwesPromotion else Done)]
    case Resume(id) => Advance(w, id, if w.calls[id].phase == OwesDelete then Checked else Done)
    case Handle(id, ok) => Advance(w, id, if ok then Handled else Done)
    case Abandon(id) => Advance(w, id, Done)
    case Finish(id, _, _) => Advance(w, id, Done)
    case Outside(_) => w.calls
  }

  ghost predicate Happens(cfg: Config, w: World, e: Event, w': World) {
    && Enabled(w, e)
    && Next(cfg, w.sys, CacheStep(w, e), w'.sys)
    && w'.calls == CallsAfter(cfg, w, e)
  }

  ghost predicate History(cfg: Config, worlds: seq<World>, events: seq<Event>) {
    && |worlds| == |events| + 1
    && worlds[0] == IDLE
    && forall n | 0 <= n < |events| :: Happens(cfg, worlds[n], events[n], worlds[n + 1])
  }

  // ----- The cache's view of a history -----

  ghost function Systems(worlds: seq<World>): seq<System> {
    seq(|worlds|, i requires 0 <= i < |worlds| => worlds[i].sys)
  }

  ghost function Steps(cfg: Config, worlds: seq<World>, events: seq<Event>): seq<Step>
    requires History(cfg, worlds, events)
  {
    seq(|events|, i requires 0 <= i < |events| =>
      assert Happens(cfg, worlds[i], events[i], worlds[i + 1]); CacheStep(worlds[i], events[i]))
  }

  lemma HistoryIsRun(cfg: Config, worlds: seq<World>, events: seq<Event>)
    requires History(cfg, worlds, events)
    ensures Run(cfg, Systems(worlds), Steps(cfg, worlds, events))
  {
    var states, steps := Systems(worlds), Steps(cfg, worlds, events);
    forall n | 0 <= n < |steps| ensures Next(cfg, states[n], steps[n], states[n + 1]) {
      assert Happens(cfg, worlds[n], events[n], worlds[n + 1]);
    }
  }

  // ----- What a call did earlier -----

  predicate Begins(worlds: seq<World>, events: seq<Event>, n: nat, id: nat, key: Key)
    requires |worlds| == |events| + 1 && n < |events|
  {
    events[n].Begin? && events[n].id == id && events[n].key == key
  }

  predicate Succeeds(worlds: seq<World>, events: seq<Event>, n: nat, id: nat, key: Key)
    requires |worlds| == |events| + 1 && n < |events|
  {
    events[n] == Handle(id, true) && id in worlds[n].calls && worlds[n].calls[id].key == key
  }

  predicate Marks(worlds: seq<World>, events: seq<Event>, n: nat, id: nat, key: Key)
    requires |worlds| == |events| + 1 && n < |events|
  {
    events[n].Finish? && events[n].id == id && id in worlds[n].calls && worlds[n].calls[id].key == key
  }

  /** A call keeps its identity and key once begun. */
  lemma {:induction false} CallsPersist(cfg: Config, worlds: seq<World>, events: seq<Event>, m: nat, n: nat, id: nat)
    requires History(cfg, worlds, events) && m <= n <= |events| && id in worlds[m].calls
    ensures id in worlds[n].calls && worlds[n].calls[id].key == worlds[m].calls[id].key
  {
    if m < n {
      CallsPersist(cfg, worlds, events, m, n - 1, id);
      assert Happens(cfg, worlds[n - 1], events[n - 1], worlds[n]);
    }
  }

  /** A call ready to mark has run its handler without error. */
  lemma {:induction false} HandledHasSucceeded(cfg: Config, worlds: seq<World>, events: seq<Event>, n: nat, id: nat)
    requires History(cfg, worlds, events) && n <= |events| && InPhase(worlds[n], id, Handled)
    ensures exists h | 0 <= h < n :: Succeeds(worlds, events, h, id, worlds[n].calls[id].key)
  {
    assert n > 0;
    assert Happens(cfg, worlds[n - 1], events[n - 1], worlds[n]);
    if events[n - 1] == Handle(id, true) {
      assert Succeeds(worlds, events, n - 1, id, worlds[n].calls[id].key);
    } else {
      HandledHasSucceeded(cfg, worlds, events, n - 1, id);
    }
  }

  /** A call whose check let it through began with a lookup that was not a hit. */
  lemma {:induction false} CheckedHasBegun(cfg: Config, worlds: seq<World>, events: seq<Event>, n: nat, id: nat)
    requires History(cfg, worlds, events) && n <= |events| && id in worlds[n].calls
    requires worlds[n].calls[id].phase in {OwesDelete, Checked, Handled}
    ensures exists b | 0 <= b < n ::
              && Begins(worlds, events, b, id, worlds[n].calls[id].key)
              && Lookup(worlds[b].sys.cache, events[b].key, events[b].now) != Hit
  {
    assert n > 0;
    assert Happens(cfg, worlds[n - 1], events[n - 1], worlds[n]);
    if events[n - 1].Begin? && events[n - 1].id == id {
      assert Begins(worlds, events, n - 1, id, worlds[n].calls[id].key);
    } else {
      CheckedHasBegun(cfg, worlds, events, n - 1, id);
    }
  }

  // ----- No key is skipped without a success -----

  /** A call that finds its key processed has a cause: an earlier call for the same key marked it with
      an expiry not yet reached, and that call's handler had finished without error before. */
  lemma SkipsHaveASuccess(cfg: Config, worlds: seq<World>, events: seq<Event>, n: nat)
    requires History(cfg, worlds, events) && n < |events| && events[n].Begin?
    requires Lookup(worlds[n].sys.cache, events[n].key, events[n].now) == Hit
    ensures exists h, m, id | 0 <= h < m < n ::
              && Succeeds(worlds, events, h, id, events[n].key)
              && Marks(worlds, events, m, id, events[n].key)
              && events[n].now <= events[m].at + TTL
  {
    HistoryIsRun(cfg, worlds, events);
    var steps, key := Steps(cfg, worlds, events), events[n].key;
    HitsHaveACause(cfg, Systems(worlds), steps, n, key, events[n].now);
    var m :| 0 <= m < n && steps[m].Mark? && steps[m].key == key && steps[m].at + steps[m].ttl >= events[n].now;
    assert Happens(cfg, worlds[m], events[m], worlds[m + 1]);
    var id := events[m].id;
    HandledHasSucceeded(cfg, worlds, events, m, id);
    var h :| 0 <= h < m && Succeeds(worlds, events, h, id, key);
    assert Marks(worlds, events, m, id, key);
  }

  // ----- How often a handler succeeds for one key -----

  /** Calls for `key` that were told "not processed" and have not returned yet. */
  function InFlight(w: World, key: Key): set<nat> {
    set id | id in w.calls && w.calls[id].key == key && w.calls[id].phase in {OwesDelete, Checked, Handled}
  }

  predicate FirstMark(worlds: seq<World>, events: seq<Event>, f: nat, key: Key)
    requires |worlds| == |events| + 1
  {
    && f < |events|
    && (exists id | id in worlds[f].calls :: Marks(worlds, events, f, id, key))
    && forall m, id | 0 <= m < f && id in worlds[m].calls :: !Marks(worlds, events, m, id, key)
  }

  /** Every lookup of `key` that begins a call after `f` is a hit. */
  predicate KeepsMark(worlds: seq<World>, events: seq<Event>, f: nat, key: Key)
    requires |worlds| == |events| + 1
  {
    forall n | f < n < |events| && events[n].Begin? && events[n].key == key ::
      Lookup(worlds[n].sys.cache, key, events[n].now) == Hit
  }

  /** The moments at which a handler run for `key` succeeds. */
  function Successes(worlds: seq<World>, events: seq<Event>, key: Key): set<nat>
    requires |worlds| == |events| + 1
  {
    set h | 0 <= h < |events| && events[h].Handle? && Succeeds(worlds, events, h, events[h].id, key)
  }

  /** After its handler succeeded, a call only waits to mark, and then has returned. */
  lemma {:induction false} AfterSuccess(
    cfg: Config, worlds: seq<World>, events: seq<Event>, h: nat, n: nat, id: nat, key: Key)
    requires History(cfg, worlds, events) && h < n <= |events| && Succeeds(worlds, events, h, id, key)
    ensures id in worlds[n].calls && worlds[n].calls[id].key == key
    ensures worlds[n].calls[id].phase == Handled ||
            (worlds[n].calls[id].phase == Done && exists m | h < m < n :: Marks(worlds, events, m, id, key))
  {
    if n > h + 1 {
      AfterSuccess(cfg, worlds, events, h, n - 1, id, key);
    }
    assert Happens(cfg, worlds[n - 1], events[n - 1], worlds[n]);
    if n > h + 1 && events[n - 1].Finish? && events[n - 1].id == id {
      assert Marks(worlds, events, n - 1, id, key);
    }
  }

  /** A call's handler succeeds at most once. */
  lemma SuccessesAreDistinctCalls(cfg: Config, worlds: seq<World>, events: seq<Event>, key: Key, g: nat, h: nat)
    requires History(cfg, worlds, events) && g < h
    requires g in Successes(worlds, events, key) && h in Successes(worlds, events, key)
    ensures events[g].id != events[h].id
  {
    assert Happens(cfg, worlds[h], events[h], worlds[h + 1]);
    AfterSuccess(cfg, worlds, events, g, h, events[g].id, key);
  }

  /** A call that succeeded at any time was in flight at the first mark of its key. */
  lemma SuccessWasInFlight(
    cfg: Config, worlds: seq<World>, events: seq<Event>, f: nat, h: nat, id: nat, key: Key)
    requires History(cfg, worlds, events) && FirstMark(worlds, events, f, key) && KeepsMark(worlds, events, f, key)
    requires h < |events| && Succeeds(worlds, events, h, id, key)
    ensures id in InFlight(worlds[f], key)
  {
    if h < f {
      AfterSuccess(cfg, worlds, events, h, f, id, key);
    } else {
      assert Happens(cfg, worlds[h], events[h], worlds[h + 1]);
      CheckedHasBegun(cfg, worlds, events, h, id);
      var b :| 0 <= b < h && Begins(worlds, events, b, id, key)
        && Lookup(worlds[b].sys.cache, events[b].key, events[b].now) != Hit;
      if b < f { BegunIsInFlight(cfg, worlds, events, b, f, h, id); }
    }
  }

  /** Between a check that let a call through and its handler run, the call is in flight. */
  lemma {:induction false} BegunIsInFlight(
    cfg: Config, worlds: seq<World>, events: seq<Event>, b: nat, f: nat, h: nat, id: nat)
    requires History(cfg, worlds, events) && b < f <= h <= |events|
    requires events[b].Begin? && events[b].id == id
    requires InPhase(worlds[h], id, Checked)
    ensures id in InFlight(worlds[f], worlds[h].calls[id].key)
    decreases h
  {
    assert Happens(cfg, worlds[b], events[b], worlds[b + 1]);
    CallsPersist(cfg, worlds, events, b + 1, f, id);
    CallsPersist(cfg, worlds, events, f, h, id);
    StaysPast(cfg, worlds, events, f, h, id);
    var phase := worlds[f].calls[id].phase;
    assert phase.OwesDelete? || phase.Checked? || phase.Handled?;
  }

  /** A call that has returned, or that only owes a promotion, never runs its handler. */
  lemma {:induction false} StaysPast(cfg: Config, worlds: seq<World>, events: seq<Event>, m: nat, n: nat, id: nat)
    requires History(cfg, worlds, events) && m <= n <= |events| && id in worlds[m].calls
    ensures id in worlds[n].calls
    ensures worlds[m].calls[id].phase in {Done, OwesPromotion} ==> worlds[n].calls[id].phase in {Done, OwesPromotion}
  {
    if m < n {
      StaysPast(cfg, worlds, events, m, n - 1, id);
      assert Happens(cfg, worlds[n - 1], events[n - 1], worlds[n]);
    }
  }

  lemma {:induction false} InjectionBound(indices: set<nat>, ids: nat -> nat, bound: set<nat>)
    requires forall i | i in indices :: ids(i) in bound
    requires forall i, j | i in indices && j in indices && i < j :: ids(i) != ids(j)
    ensures |indices| <= |bound|
  {
    if indices != {} {
      var i :| i in indices;
      InjectionBound(indices - {i}, ids, bound - {ids(i)});
    }
  }

  /** Over a cache that keeps its marks, the successful handler runs for a key never outnumber the
      calls in flight at the instant the key is first marked. */
  lemma SuccessesBoundedByInFlight(cfg: Config, worlds: seq<World>, events: seq<Event>, f: nat, key: Key)
    requires History(cfg, worlds, events) && FirstMark(worlds, events, f, key) && KeepsMark(worlds, events, f, key)
    ensures forall h | h in Successes(worlds, events, key) :: events[h].id in InFlight(worlds[f], key)
    ensures |Successes(worlds, events, key)| <= |InFlight(worlds[f], key)|
  {
    var successes := Successes(worlds, events, key);
    forall h | h in successes ensures events[h].id in InFlight(worlds[f], key) {
      SuccessWasInFlight(cfg, worlds, events, f, h, events[h].id, key);
    }
    forall g, h | g in successes && h in successes && g < h ensures events[g].id != events[h].id {
      SuccessesAreDistinctCalls(cfg, worlds, events, key, g, h);
    }
    var ids := (i: nat) => if i < |events| && events[i].Handle? then events[i].id else 0;
    InjectionBound(successes, ids, InFlight(worlds[f], key));
  }

  /** As long as a key has not been marked, every call that succeeded for it is still in flight. */
  lemma SuccessesBeforeAnyMark(cfg: Config, worlds: seq<World>, events: seq<Event>, key: Key)
    requires History(cfg, worlds, events)
    requires forall m, id | 0 <= m < |events| && id in worlds[m].calls :: !Marks(worlds, events, m, id, key)
    ensures |Successes(worlds, events, key)| <= |InFlight(worlds[|events|], key)|
  {
    var successes := Successes(worlds, events, key);
    var bound := InFlight(worlds[|events|], key);
    forall h | h in successes ensures events[h].id in bound {
      AfterSuccess(cfg, worlds, events, h, |events|, events[h].id, key);
    }
    forall g, h | g in successes && h in successes && g < h ensures events[g].id != events[h].id {
      SuccessesAreDistinctCalls(cfg, worlds, events, key, g, h);
    }
    var ids := (i: nat) => if i < |events| && events[i].Handle? then events[i].id else 0;
    InjectionBound(successes, ids, bound);
  }

  lemma ExtendHistory(cfg: Config, worlds: seq<World>, events: seq<Event>, e: Event, w: World)
    requires History(cfg, worlds, events) && Happens(cfg, worlds[|events|], e, w)
    ensures History(cfg, worlds + [w], events + [e])
  {
  }

  /** The bound is met: two overlapping calls for one key both succeed, so calls that overlap are not
      deduplicated. */
  lemma OverlappingCallsBothSucceed(cfg: Config, key: Key) returns (worlds: seq<World>, events: seq<Event>)
    ensures History(cfg, worlds, events)
    ensures Successes(worlds, events, key) == {2, 3} && InFlight(worlds[4], key) == {0, 1}
  {
    var c, h := Call(key, Checked), Call(key, Handled);
    worlds, events := [IDLE], [];
    ExtendHistory(cfg, worlds, events, Begin(0, key, 0), World(START, map[0 := c]));
    worlds, events := [IDLE, World(START, map[0 := c])], [Begin(0, key, 0)];
    ExtendHistory(cfg, worlds, events, Begin(1, key, 0), World(START, map[0 := c, 1 := c]));
    worlds, events := worlds + [World(START, map[0 := c, 1 := c])], events + [Begin(1, key, 0)];
    ExtendHistory(cfg, worlds, events, Handle(0, true), World(START, map[0 := h, 1 := c]));
    worlds, events := worlds + [World(START, map[0 := h, 1 := c])], events + [Handle(0, true)];
    ExtendHistory(cfg, worlds, events, Handle(1, true), World(START, map[0 := h, 1 := h]));
    worlds, events := worlds + [World(START, map[0 := h, 1 := h])], events + [Handle(1, true)];
  }

  // ----- When the in-memory cache keeps its marks -----

  /** No lookup of `key`, by a call or outside one, comes after the expiry its latest mark gave it. */
  predicate LookedUpInTime(steps: seq<Step>, key: Key) {
    forall n | 0 <= n < |steps| && steps[n].Read? && steps[n].key == key && LastExpiry(steps, n, key).Some? ::
      steps[n].now <= LastExpiry(steps, n, key).value
  }

  lemma DeleteIsOwedByRead(cfg: Config, s: System, e: Step, s': System, key: Key)
    requires Next(cfg, s, e, s') && Drop(key) !in s.pending
    requires e.Read? && e.key == key ==> Lookup(s.cache, key, e.now) != Stale
    ensures Drop(key) !in s'.pending && e != Land(Drop(key))
  {
  }

  /** Then no read finds the entry expired, so no delete of it is ever owed. */
  lemma {:induction false} NoDeleteOwed(cfg: Config, states: seq<System>, steps: seq<Step>, n: nat, key: Key)
    requires Run(cfg, states, steps) && n <= |steps| && LookedUpInTime(steps, key)
    ensures Drop(key) !in states[n].pending && !DroppedSinceMark(steps, n, key)
  {
    hide Next;
    if n > 0 {
      NoDeleteOwed(cfg, states, steps, n - 1, key);
      var s, e := states[n - 1], steps[n - 1];
      if e.Read? && e.key == key && key in s.cache.entries {
        EntriesComeFromMarks(cfg, states, steps, n - 1, key);
      }
      DeleteIsOwedByRead(cfg, s, e, states[n], key);
    }
  }

  /** Every lookup of `key` after a mark of it is a hit. */
  ghost predicate AlwaysHits(states: seq<System>, steps: seq<Step>, key: Key)
    requires |states| == |steps| + 1
  {
    forall n | 0 <= n < |steps| && steps[n].Read? && steps[n].key == key && LastExpiry(steps, n, key).Some? ::
      Lookup(states[n].cache, key, steps[n].now) == Hit
  }

  /** A cache that is never full loses no mark of a key, in a history of any length, if and only if no
      lookup of that key comes after the expiry of its latest mark. */
  lemma MarksAreKept(cfg: Config, worlds: seq<World>, events: seq<Event>, key: Key)
    requires History(cfg, worlds, events)
    requires var steps := Steps(cfg, worlds, events);
             NeverFull(cfg, Systems(worlds), steps) && MonotoneClock(steps)
    ensures AlwaysHits(Systems(worlds), Steps(cfg, worlds, events), key) <==>
            LookedUpInTime(Steps(cfg, worlds, events), key)
    ensures LookedUpInTime(Steps(cfg, worlds, events), key) ==>
              forall f | FirstMark(worlds, events, f, key) :: KeepsMark(worlds, events, f, key)
  {
    var states, steps := Systems(worlds), Steps(cfg, worlds, events);
    HistoryIsRun(cfg, worlds, events);
    forall n | 0 <= n < |steps| && steps[n].Read? && steps[n].key == key
      ensures Lookup(states[n].cache, key, steps[n].now) == Hit ==> TtlHit(steps, n, key, steps[n].now)
      ensures LookedUpInTime(steps, key) && LastExpiry(steps, n, key).Some? ==>
                Lookup(states[n].cache, key, steps[n].now) == Hit
    {
      AnswersAreExact(cfg, states, steps, n, key, steps[n].now);
      if LookedUpInTime(steps, key) { NoDeleteOwed(cfg, states, steps, n, key); }
    }
    if LookedUpInTime(steps, key) {
      forall f | FirstMark(worlds, events, f, key) ensures KeepsMark(worlds, events, f, key) {
        HitsKeepMark(cfg, worlds, events, f, key);
      }
    }
  }

  lemma HitsKeepMark(cfg: Config, worlds: seq<World>, events: seq<Event>, f: nat, key: Key)
    requires History(cfg, worlds, events) && FirstMark(worlds, events, f, key)
    requires AlwaysHits(Systems(worlds), Steps(cfg, worlds, events), key)
    ensures KeepsMark(worlds, events, f, key)
  {
    var steps := Steps(cfg, worlds, events);
    forall n | f < n < |events| && events[n].Begin? && events[n].key == key
      ensures Lookup(worlds[n].sys.cache, key, events[n].now) == Hit
    {
      assert steps[n] == Read(key, events[n].now);
      assert steps[f].Mark? && steps[f].key == key;
      MarkedHasExpiry(steps, f, n, key);
      assert Lookup(Systems(worlds)[n].cache, key, steps[n].now) == Hit;
    }
  }

  lemma {:induction false} MarkedHasExpiry(steps: seq<Step>, f: nat, n: nat, key: Key)
    requires f < n <= |steps| && steps[f].Mark? && steps[f].key == key
    ensures LastExpiry(steps, n, key).Some?
  {
    if n > f + 1 { MarkedHasExpiry(steps, f, n - 1, key); }
  }

  lemma {:induction false} FirstMarkExists(worlds: seq<World>, events: seq<Event>, m: nat, id: nat, key: Key)
    returns (f: nat)
    requires |worlds| == |events| + 1 && m < |events| && id in worlds[m].calls && Marks(worlds, events, m, id, key)
    ensures FirstMark(worlds, events, f, key)
  {
    if m', id' :| 0 <= m' < m && id' in worlds[m'].calls && Marks(worlds, events, m', id', key) {
      f := FirstMarkExists(worlds, events, m', id', key);
    } else {
      f := m;
    }
  }

  /** Exactly once, for calls that do not overlap: in a history of any length whose cache is never full, if
      `key` is not looked up after the expiry of its latest mark and never has two calls in flight at once,
      then at most one handler run for `key` succeeds. */
  lemma AtMostOneSuccess(cfg: Config, worlds: seq<World>, events: seq<Event>, key: Key)
    requires History(cfg, worlds, events)
    requires var steps := Steps(cfg, worlds, events);
             NeverFull(cfg, Systems(worlds), steps) && MonotoneClock(steps) && LookedUpInTime(steps, key)
    requires forall n | 0 <= n <= |events| :: |InFlight(worlds[n], key)| <= 1
    ensures |Successes(worlds, events, key)| <= 1
  {
    if m, id :| 0 <= m < |events| && id in worlds[m].calls && Marks(worlds, events, m, id, key) {
      var f := FirstMarkExists(worlds, events, m, id, key);
      MarksAreKept(cfg, worlds, events, key);
      SuccessesBoundedByInFlight(cfg, worlds, events, f, key);
    } else {
      SuccessesBeforeAnyMark(cfg, worlds, events, key);
    }
  }

  // ----- Successes are a time to live apart -----

  /** Calls for `key` do not overlap, and no lookup outside a call deletes it. */
  ghost predicate OneAtATime(worlds: seq<World>, events: seq<Event>, key: Key) {
    && (forall n | 0 <= n < |worlds| :: |InFlight(worlds[n], key)| <= 1)
    && (forall n | 0 <= n < |events| :: events[n] != Outside(Land(Drop(key))))
  }

  lemma SameCall(worlds: seq<World>, events: seq<Event>, n: nat, key: Key, i: nat, j: nat)
    requires n < |worlds| && OneAtATime(worlds, events, key)
    requires i in InFlight(worlds[n], key) && j in InFlight(worlds[n], key)
    ensures i == j
  {
    SubsetSize({i, j}, InFlight(worlds[n], key));
  }

  /** A call that owes a delete has owed it ever since its lookup found the entry expired. */
  lemma {:induction false} DeleteHasLookup(cfg: Config, worlds: seq<World>, events: seq<Event>, n: nat, id: nat)
    returns (r: nat)
    requires History(cfg, worlds, events) && n <= |events| && InPhase(worlds[n], id, OwesDelete)
    ensures r < n && Begins(worlds, events, r, id, worlds[n].calls[id].key)
    ensures Lookup(worlds[r].sys.cache, events[r].key, events[r].now) == Stale
    ensures forall k | r < k <= n :: InPhase(worlds[k], id, OwesDelete) && worlds[k].calls[id].key == events[r].key
  {
    assert n > 0;
    assert Happens(cfg, worlds[n - 1], events[n - 1], worlds[n]);
    if events[n - 1].Begin? && events[n - 1].id == id {
      r := n - 1;
    } else {
      r := DeleteHasLookup(cfg, worlds, events, n - 1, id);
    }
  }

  lemma {:induction false} SameExpiry(steps: seq<Step>, r: nat, n: nat, key: Key)
    requires r <= n <= |steps| && forall k | r <= k < n :: !(steps[k].Mark? && steps[k].key == key)
    ensures LastExpiry(steps, n, key) == LastExpiry(steps, r, key)
  {
    if r < n { SameExpiry(steps, r, n - 1, key); }
  }

  /** When calls come one at a time, a delete of `key` belongs to a lookup after its latest mark. */
  lemma LandedDeleteIsExpired(cfg: Config, worlds: seq<World>, events: seq<Event>, n: nat, key: Key)
    requires History(cfg, worlds, events) && OneAtATime(worlds, events, key)
    requires n < |events| && Steps(cfg, worlds, events)[n] == Land(Drop(key))
    ensures var steps := Steps(cfg, worlds, events);
            LastExpiry(steps, n, key).Some? &&
            exists i | 0 <= i < n :: steps[i].Read? && Expired(LastExpiry(steps, n, key).value, steps[i].now)
  {
    var states, steps := Systems(worlds), Steps(cfg, worlds, events);
    HistoryIsRun(cfg, worlds, events);
    assert Happens(cfg, worlds[n], events[n], worlds[n + 1]);
    var id := events[n].id;
    var r := DeleteHasLookup(cfg, worlds, events, n, id);
    forall k | r <= k < n ensures !(steps[k].Mark? && steps[k].key == key) {
      assert Happens(cfg, worlds[k], events[k], worlds[k + 1]);
      if steps[k].Mark? && steps[k].key == key {
        assert InPhase(worlds[k], id, OwesDelete) && InPhase(worlds[k], events[k].id, Handled);
        SameCall(worlds, events, k, key, id, events[k].id);
      }
    }
    SameExpiry(steps, r, n, key);
    EntriesComeFromMarks(cfg, states, steps, r, key);
    assert steps[r] == Read(key, events[r].now);
  }

  lemma {:induction false} DropsAreExpired(cfg: Config, worlds: seq<World>, events: seq<Event>, n: nat, key: Key)
    requires History(cfg, worlds, events) && OneAtATime(worlds, events, key) && n <= |events|
    requires var steps := Steps(cfg, worlds, events);
             DroppedSinceMark(steps, n, key) && LastExpiry(steps, n, key).Some?
    ensures var steps := Steps(cfg, worlds, events);
            exists i | 0 <= i < n :: steps[i].Read? && Expired(LastExpiry(steps, n, key).value, steps[i].now)
  {
    hide History, OneAtATime;
    var steps := Steps(cfg, worlds, events);
    if steps[n - 1] == Land(Drop(key)) {
      LandedDeleteIsExpired(cfg, worlds, events, n - 1, key);
    } else {
      DropsAreExpired(cfg, worlds, events, n - 1, key);
    }
  }

  lemma OnlyCallsMark(cfg: Config, worlds: seq<World>, events: seq<Event>)
    requires History(cfg, worlds, events)
    ensures var steps := Steps(cfg, worlds, events);
            forall i | 0 <= i < |steps| && steps[i].Mark? :: steps[i].ttl == TTL
  {
    var steps := Steps(cfg, worlds, events);
    forall i | 0 <= i < |steps| && steps[i].Mark? ensures steps[i].ttl == TTL {
      assert Happens(cfg, worlds[i], events[i], worlds[i + 1]);
      assert steps[i] == CacheStep(worlds[i], events[i]);
    }
  }

  /** Later marks expire no earlier. */
  lemma {:induction false} LaterExpiry(steps: seq<Step>, m: nat, n: nat, key: Key)
    requires m < n <= |steps| && steps[m].Mark? && steps[m].key == key && MonotoneClock(steps)
    requires forall i | 0 <= i < |steps| && steps[i].Mark? :: steps[i].ttl == TTL
    ensures LastExpiry(steps, n, key).Some? && LastExpiry(steps, n, key).value >= steps[m].at + TTL
  {
    if n > m + 1 {
      if steps[n - 1].Mark? && steps[n - 1].key == key {
        assert Latest(steps[m]) <= steps[n - 1].now <= steps[n - 1].at;
      } else {
        LaterExpiry(steps, m, n - 1, key);
      }
    }
  }

  /** A check after a mark that is not a hit comes more than a time to live after it. */
  lemma MissesAreLate(cfg: Config, worlds: seq<World>, events: seq<Event>, m: nat, b: nat, id: nat, key: Key)
    requires History(cfg, worlds, events) && OneAtATime(worlds, events, key)
    requires var steps := Steps(cfg, worlds, events);
             NeverFull(cfg, Systems(worlds), steps) && MonotoneClock(steps)
    requires m < b < |events| && Marks(worlds, events, m, id, key)
    requires events[b].Begin? && events[b].key == key && Lookup(worlds[b].sys.cache, key, events[b].now) != Hit
    ensures events[b].now > events[m].at + TTL
  {
    var states, steps := Systems(worlds), Steps(cfg, worlds, events);
    HistoryIsRun(cfg, worlds, events);
    OnlyCallsMark(cfg, worlds, events);
    assert steps[m] == Mark(key, events[m].now, events[m].at, TTL) && steps[b] == Read(key, events[b].now);
    LaterExpiry(steps, m, b, key);
    AnswersAreExact(cfg, states, steps, b, key, events[b].now);
    if DroppedSinceMark(steps, b, key) {
      DropsAreExpired(cfg, worlds, events, b, key);
      var i :| 0 <= i < b && steps[i].Read? && Expired(LastExpiry(steps, b, key).value, steps[i].now);
      assert Latest(steps[i]) <= steps[b].now;
    }
  }

  lemma SucceedingIsChecked(cfg: Config, worlds: seq<World>, events: seq<Event>, key: Key, h: nat)
    requires History(cfg, worlds, events) && h in Successes(worlds, events, key)
    ensures InPhase(worlds[h], events[h].id, Checked) && events[h].id in InFlight(worlds[h], key)
  {
    assert Happens(cfg, worlds[h], events[h], worlds[h + 1]);
  }

  /** The second of two successful calls that do not overlap began after the first had marked. */
  lemma SecondBeginsAfterMark(
    cfg: Config, worlds: seq<World>, events: seq<Event>, key: Key, g: nat, h: nat) returns (m: nat, b: nat)
    requires History(cfg, worlds, events) && OneAtATime(worlds, events, key)
    requires g in Successes(worlds, events, key) && h in Successes(worlds, events, key) && g < h
    ensures g < m < b < h && Marks(worlds, events, m, events[g].id, key) && Begins(worlds, events, b, events[h].id, key)
    ensures Lookup(worlds[b].sys.cache, key, events[b].now) != Hit
  {
    hide Happens, OneAtATime;
    var i, j := events[g].id, events[h].id;
    SuccessesAreDistinctCalls(cfg, worlds, events, key, g, h);
    SucceedingIsChecked(cfg, worlds, events, key, g);
    SucceedingIsChecked(cfg, worlds, events, key, h);
    CheckedHasBegun(cfg, worlds, events, h, j);
    b :| 0 <= b < h && Begins(worlds, events, b, j, key)
      && Lookup(worlds[b].sys.cache, events[b].key, events[b].now) != Hit;
    if b < g {
      BegunIsInFlight(cfg, worlds, events, b, g, h, j);
      SameCall(worlds, events, g, key, i, j);
    }
    AfterSuccess(cfg, worlds, events, g, b + 1, i, key);
    if worlds[b + 1].calls[i].phase == Handled {
      BegunIsInFlight(cfg, worlds, events, b, b + 1, h, j);
      SameCall(worlds, events, b + 1, key, i, j);
    }
    m :| g < m < b + 1 && Marks(worlds, events, m, i, key);
  }

  /** Exactly once per time to live: over a cache that is never full, in a history of any length, two
      handler runs for one key that both succeed, in calls that do not overlap, are separated by a mark
      and then, more than 24 hours later, the check of the second call. */
  lemma SuccessesAreTtlApart(
    cfg: Config, worlds: seq<World>, events: seq<Event>, key: Key, g: nat, h: nat) returns (m: nat, b: nat)
    requires History(cfg, worlds, events) && OneAtATime(worlds, events, key)
    requires var steps := Steps(cfg, worlds, events);
             NeverFull(cfg, Systems(worlds), steps) && MonotoneClock(steps)
    requires g in Successes(worlds, events, key) && h in Successes(worlds, events, key) && g < h
    ensures g < m < b < h && Marks(worlds, events, m, events[g].id, key) && Begins(worlds, events, b, events[h].id, key)
    ensures events[b].now > events[m].at + TTL
  {
    m, b := SecondBeginsAfterMark(cfg, worlds, events, key, g, h);
    MissesAreLate(cfg, worlds, events, m, b, events[g].id, key);
  }
}
