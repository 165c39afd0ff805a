/** The recorder's event loop as a state machine. One step handles one
    message: a certificate to record, the hourly expiry tick, a request for
    the events, or the save timer firing. The two timers are modelled by
    their deadlines, and the clock reading of every step is a parameter.
    The store is the sequence-level one of module EventStore; module
    ChainStore shows that the linked chains the program keeps agree with it. */
module Recorder {
  import opened Types
  import opened History
  import EventStore
  import Quantise

  /** Seconds from a change of the store until the save timer fires. */
  const SaveDelay: int := 5

  /** Seconds between two expiry passes. */
  const ExpiryInterval: int := 3600

  /** The loop's state: the store, the cached snapshot (None after a
      change), the save timer's deadline (None while it is stopped) and the
      hourly timer's deadline. */
  datatype Recorder = Recorder(
    store: EventStore.Store,
    cache: Option<EventStore.EventsMap>,
    saveAt: Option<int>,
    expireAt: int)

  /** What the loop can receive. Certificates carry their lifetime as whole
      seconds; a request says whether its receiver is ready to take the
      reply, since the reply is sent without blocking. */
  datatype Message =
    | SshCert(principals: seq<string>, lifetime: uint32)
    | X509Cert(commonName: string, lifetime: uint32)
    | HourlyTick
    | EventsRequest(receiverReady: bool)
    | SaveTimerFired

  /** What a step hands to the outside: nothing, a reply to a request, a
      reply that was dropped because nobody was receiving, or a snapshot
      written to the history file. */
  datatype Output = Silent | Reply(events: EventStore.EventsMap) | ReplyDropped | Save(events: EventStore.EventsMap)

  /** An SSH certificate is recorded under its first principal, so it must
      have one. */
  predicate WellFormed(m: Message) {
    m.SshCert? ==> |m.principals| > 0
  }

  /** The cache, when present, is the snapshot of the current store. */
  predicate CacheCoherent(r: Recorder) {
    r.cache.None? || r.cache.value == EventStore.Snapshot(r.store)
  }

  /** While no save is pending, `file` is the snapshot of the current
      store. `file` is the last snapshot handed to the saver, or, before any
      save, the snapshot of the initial store. It is not the file read at
      start-up: with the program's loader that file holds every history
      reversed, and with either loader it may hold stale records. */
  predicate Durable(r: Recorder, file: EventStore.EventsMap) {
    r.saveAt.None? ==> file == EventStore.Snapshot(r.store)
  }

  /** One turn of the loop. A certificate is recorded, drops the cache and
      (re)starts the save timer. The hourly tick expires old records and,
      only if something went, drops the cache and starts the save timer. A
      request is answered from the cache, rebuilding it first if needed;
      the rebuilt snapshot is cached even when the reply is dropped. The
      save timer writes the (possibly rebuilt) snapshot. */
  function Step(r: Recorder, m: Message, now: int): (res: (Recorder, Output))
    requires WellFormed(m)
    ensures res.0.store != r.store ==> res.0.cache.None? && res.0.saveAt == Some(now + SaveDelay)
    ensures m.EventsRequest? || m.SaveTimerFired? ==> res.0.store == r.store
    ensures m.SaveTimerFired? <==> res.1.Save?
    ensures m.EventsRequest? <==> res.1.Reply? || res.1.ReplyDropped?
    ensures res.1.Reply? <==> m.EventsRequest? && m.receiverReady
    ensures res.1.Save? ==> res.0.saveAt.None?
    ensures CacheCoherent(r) ==> CacheCoherent(res.0)
    ensures CacheCoherent(r) && (res.1.Reply? || res.1.Save?) ==> res.1.events == EventStore.Snapshot(r.store)
    ensures m.EventsRequest? || m.SaveTimerFired? ==>
              res.0.cache == (if r.cache.Some? then r.cache else Some(EventStore.Snapshot(r.store)))
    ensures res.1.Reply? || res.1.Save? ==> res.0.cache == Some(res.1.events)
    ensures m.EventsRequest? ==> res.0.saveAt == r.saveAt
    ensures m.SshCert? ==> res.0.store == EventStore.RecordEvent(r.store, m.principals[0], m.lifetime, now, true, false)
    ensures m.X509Cert? ==> res.0.store == EventStore.RecordEvent(r.store, m.commonName, m.lifetime, now, false, true)
    ensures m.HourlyTick? ==> res.0.store == EventStore.ExpireOldEvents(r.store, now).0 && res.0.expireAt == now + ExpiryInterval
    ensures m.HourlyTick? && !EventStore.ExpireOldEvents(r.store, now).1 ==> res.0.cache == r.cache && res.0.saveAt == r.saveAt
    ensures !m.HourlyTick? ==> res.0.expireAt == r.expireAt
  {
    match m
    case SshCert(principals, lifetime) =>
      var store := EventStore.RecordEvent(r.store, principals[0], lifetime, now, true, false);
      (r.(store := store, cache := None, saveAt := Some(now + SaveDelay)), Silent)
    case X509Cert(name, lifetime) =>
      var store := EventStore.RecordEvent(r.store, name, lifetime, now, false, true);
      (r.(store := store, cache := None, saveAt := Some(now + SaveDelay)), Silent)
    case HourlyTick =>
      var (store, changed) := EventStore.ExpireOldEvents(r.store, now);
      var r' := r.(store := store, expireAt := now + ExpiryInterval);
      if changed then (r'.(cache := None, saveAt := Some(now + SaveDelay)), Silent) else (r', Silent)
    case EventsRequest(ready) =>
      var (snap, cache) := EventStore.GetEventsList(r.store, r.cache);
      (r.(cache := cache), if ready then Reply(snap) else ReplyDropped)
    case SaveTimerFired =>
      var (snap, cache) := EventStore.GetEventsList(r.store, r.cache);
      (r.(cache := cache, saveAt := None), Save(snap))
  }

  /** One step keeps the durability invariant, `file` being replaced by
      the snapshot the step handed to the saver, if any. */
  lemma StepDurable(r: Recorder, m: Message, now: int, file: EventStore.EventsMap)
    requires WellFormed(m) && CacheCoherent(r) && Durable(r, file)
    ensures var (r', out) := Step(r, m, now);
            Durable(r', if out.Save? then out.events else file)
  {
  }

  /** A step at a clock reading no earlier than any record, within the
      uint64 range, keeps the store ordered up to that reading. */
  lemma StepKeepsOrdered(r: Recorder, m: Message, now: int)
    requires WellFormed(m) && 0 <= now < TWO_64 && EventStore.Ordered(r.store, now)
    ensures EventStore.Ordered(Step(r, m, now).0.store, now)
  {
    match m
    case SshCert(principals, lifetime) =>
      EventStore.RecordKeepsOrdered(r.store, principals[0], lifetime, now, true, false);
    case X509Cert(name, lifetime) =>
      EventStore.RecordKeepsOrdered(r.store, name, lifetime, now, false, true);
    case HourlyTick =>
      EventStore.ExpireKeepsOrdered(r.store, now, now);
    case EventsRequest(_) =>
    case SaveTimerFired =>
  }

  /** On an ordered store the hourly tick leaves no stale record anywhere:
      the early stop of expiry is enough. */
  lemma TickLeavesFresh(r: Recorder, now: int)
    requires EventStore.Ordered(r.store, now)
    ensures var s := Step(r, HourlyTick, now).0.store;
            forall u :: u in s ==> AllFresh(s[u], MinCreateTime(now))
  {
    var s := Step(r, HourlyTick, now).0.store;
    forall u | u in s
      ensures AllFresh(s[u], MinCreateTime(now))
    {
      ExpireSortedLeavesFresh(r.store[u], MinCreateTime(now));
    }
  }

  /** A message together with the clock reading when the loop takes it. */
  datatype Timed = Timed(msg: Message, now: int)

  predicate AllWellFormed(ms: seq<Timed>) {
    forall i :: 0 <= i < |ms| ==> WellFormed(ms[i].msg)
  }

  /** The loop taking `ms` in order: the final state and one output per
      message. */
  function Run(r: Recorder, ms: seq<Timed>): (res: (Recorder, seq<Output>))
    requires AllWellFormed(ms)
    ensures |res.1| == |ms|
    decreases |ms|
  {
    if ms == [] then (r, [])
    else
      var (r1, out) := Step(r, ms[0].msg, ms[0].now);
      var (rn, outs) := Run(r1, ms[1..]);
      (rn, [out] + outs)
  }

  /** The last snapshot handed to the saver in `outs`, or `file` if none. */
  function LastSaved(file: EventStore.EventsMap, outs: seq<Output>): EventStore.EventsMap
    decreases |outs|
  {
    if outs == [] then file
    else LastSaved(if outs[0].Save? then outs[0].events else file, outs[1..])
  }

  /** Over any run, the cache stays coherent, and whenever no save is
      pending the last snapshot handed to the saver is the snapshot of the
      store. */
  lemma {:induction false} RunKeepsInvariants(r: Recorder, ms: seq<Timed>, file: EventStore.EventsMap)
    requires AllWellFormed(ms) && CacheCoherent(r) && Durable(r, file)
    ensures var (r', outs) := Run(r, ms);
            CacheCoherent(r') && Durable(r', LastSaved(file, outs))
    decreases |ms|
  {
    if ms != [] {
      var (r1, out) := Step(r, ms[0].msg, ms[0].now);
      StepDurable(r, ms[0].msg, ms[0].now, file);
      assert AllWellFormed(ms[1..]);
      RunKeepsInvariants(r1, ms[1..], if out.Save? then out.events else file);
    }
  }

  /** The clock readings of `ms` lie in the uint64 range and never go back,
      starting no earlier than `t`. */
  predicate ClockFrom(t: int, ms: seq<Timed>)
    decreases |ms|
  {
    ms == [] || (t <= ms[0].now && 0 <= ms[0].now < TWO_64 && ClockFrom(ms[0].now, ms[1..]))
  }

  /** The clock reading of the last message of `ms`, or `t` if none. */
  function LastClock(t: int, ms: seq<Timed>): int
    decreases |ms|
  {
    if ms == [] then t else LastClock(ms[0].now, ms[1..])
  }

  /** Over a run whose clock never goes back, a store ordered up to the
      starting reading stays ordered: every history stays sorted by
      creation time, so the sorted-history results about expiry, the
      snapshot and the corrected reload apply to every store the loop
      builds. */
  lemma {:induction false} RunKeepsOrdered(r: Recorder, ms: seq<Timed>, t: int)
    requires AllWellFormed(ms) && ClockFrom(t, ms) && EventStore.Ordered(r.store, t)
    ensures EventStore.Ordered(Run(r, ms).0.store, LastClock(t, ms))
    decreases |ms|
  {
    if ms != [] {
      var m, now := ms[0].msg, ms[0].now;
      assert WellFormed(m);
      EventStore.OrderedLater(r.store, t, now);
      StepKeepsOrdered(r, m, now);
      RunCons(r, ms);
      RunKeepsOrdered(Step(r, m, now).0, ms[1..], now);
    }
  }

  predicate IsCert(m: Message) {
    m.SshCert? || m.X509Cert?
  }

  /** Every message of `ms` is a certificate. */
  predicate AllCerts(ms: seq<Timed>) {
    forall i :: 0 <= i < |ms| ==> IsCert(ms[i].msg)
  }

  /** A burst of certificates produces no output; afterwards the cache is
      dropped and the save timer is due SaveDelay seconds after the last
      one, so a burst leads to a single save rather than one per record. */
  lemma {:induction false} BurstDefersSave(r: Recorder, ms: seq<Timed>)
    requires ms != [] && AllWellFormed(ms)
    requires AllCerts(ms)
    ensures var (r', outs) := Run(r, ms);
            && AllSilent(outs)
            && r'.cache.None?
            && r'.saveAt == Some(ms[|ms| - 1].now + SaveDelay)
    decreases |ms|
  {
    var m, now, rest := ms[0].msg, ms[0].now, ms[1..];
    var r1 := Step(r, m, now).0;
    assert IsCert(m);
    CertStep(r, m, now);
    RunCons(r, ms);
    if rest != [] {
      assert AllCerts(rest);
      BurstDefersSave(r1, rest);
      assert rest[|rest| - 1] == ms[|ms| - 1];
    }
    var outs := Run(r1, rest).1;
    assert ([Silent] + outs)[1..] == outs;
  }

  /** The user a certificate is recorded under. */
  function CertUser(m: Message): string
    requires WellFormed(m) && IsCert(m)
  {
    if m.SshCert? then m.principals[0] else m.commonName
  }

  /** The records one certificate adds to the history of `u`: its event,
      stamped with the clock reading, the quantised lifetime and the
      certificate's kind, if `u` is its user, and nothing otherwise. */
  function CertRecords(m: Message, now: int, u: string): seq<Event>
    requires WellFormed(m) && IsCert(m)
  {
    if CertUser(m) == u then [Event(ToUint64(now), Quantise.Quantise(m.lifetime), m.SshCert?, m.X509Cert?)]
    else []
  }

  /** The records a burst adds to the history of `u`, in arrival order. */
  function BurstEvents(ms: seq<Timed>, u: string): seq<Event>
    requires AllWellFormed(ms) && AllCerts(ms)
    decreases |ms|
  {
    if ms == [] then []
    else
      assert WellFormed(ms[0].msg) && IsCert(ms[0].msg);
      assert AllWellFormed(ms[1..]) && AllCerts(ms[1..]);
      CertRecords(ms[0].msg, ms[0].now, u) + BurstEvents(ms[1..], u)
  }

  /** The store after recording every certificate of `ms` in order. */
  function BurstStore(store: EventStore.Store, ms: seq<Timed>): EventStore.Store
    requires AllWellFormed(ms) && AllCerts(ms)
    decreases |ms|
  {
    if ms == [] then store
    else
      var m := ms[0].msg;
      assert WellFormed(m) && IsCert(m);
      assert AllWellFormed(ms[1..]) && AllCerts(ms[1..]);
      BurstStore(EventStore.RecordEvent(store, CertUser(m), m.lifetime, ms[0].now, m.SshCert?, m.X509Cert?), ms[1..])
  }

  /** Recording one certificate adds its record to the history of its user
      and to no other. */
  lemma CertHistory(store: EventStore.Store, m: Message, now: int, u: string)
    requires WellFormed(m) && IsCert(m)
    ensures EventStore.HistoryOf(EventStore.RecordEvent(store, CertUser(m), m.lifetime, now, m.SshCert?, m.X509Cert?), u)
              == EventStore.HistoryOf(store, u) + CertRecords(m, now, u)
  {
  }

  /** Recording a burst appends to every history exactly that user's
      records of the burst. */
  lemma {:induction false} BurstStoreHistory(store: EventStore.Store, ms: seq<Timed>, u: string)
    requires AllWellFormed(ms) && AllCerts(ms)
    ensures EventStore.HistoryOf(BurstStore(store, ms), u) == EventStore.HistoryOf(store, u) + BurstEvents(ms, u)
    decreases |ms|
  {
    if ms != [] {
      var m, now := ms[0].msg, ms[0].now;
      assert WellFormed(m) && IsCert(m);
      assert AllWellFormed(ms[1..]) && AllCerts(ms[1..]);
      var store1 := EventStore.RecordEvent(store, CertUser(m), m.lifetime, now, m.SshCert?, m.X509Cert?);
      var h, c, b := EventStore.HistoryOf(store, u), CertRecords(m, now, u), BurstEvents(ms[1..], u);
      assert EventStore.HistoryOf(store1, u) == h + c by {
        CertHistory(store, m, now, u);
      }
      assert EventStore.HistoryOf(BurstStore(store1, ms[1..]), u) == (h + c) + b by {
        BurstStoreHistory(store1, ms[1..], u);
      }
      Regroup(EventStore.HistoryOf(BurstStore(store1, ms[1..]), u), h, c, b);
    }
  }

  /** Concatenation regrouped, for a history known as `(h + c) + b`. */
  lemma Regroup(x: seq<Event>, h: seq<Event>, c: seq<Event>, b: seq<Event>)
    requires x == (h + c) + b
    ensures x == h + (c + b)
  {
  }

  /** The loop, fed only certificates, computes `BurstStore`. */
  lemma {:induction false} RunIsBurstStore(r: Recorder, ms: seq<Timed>)
    requires AllWellFormed(ms) && AllCerts(ms)
    ensures Run(r, ms).0.store == BurstStore(r.store, ms)
    decreases |ms|
  {
    if ms != [] {
      var m, now := ms[0].msg, ms[0].now;
      assert WellFormed(m) && IsCert(m);
      assert AllCerts(ms[1..]);
      RunCons(r, ms);
      RunIsBurstStore(Step(r, m, now).0, ms[1..]);
    }
  }

  /** After a burst of certificates every user's history is the one before
      followed by that user's certificates of the burst, in order. */
  lemma BurstRecords(r: Recorder, ms: seq<Timed>, u: string)
    requires AllWellFormed(ms) && AllCerts(ms)
    ensures EventStore.HistoryOf(Run(r, ms).0.store, u) == EventStore.HistoryOf(r.store, u) + BurstEvents(ms, u)
  {
    RunIsBurstStore(r, ms);
    BurstStoreHistory(r.store, ms, u);
  }

  /** Every output is Silent. */
  predicate AllSilent(outs: seq<Output>)
    decreases |outs|
  {
    outs == [] || (outs[0] == Silent && AllSilent(outs[1..]))
  }

  /** A run is its first step followed by the run of the rest. */
  lemma RunCons(r: Recorder, ms: seq<Timed>)
    requires ms != [] && AllWellFormed(ms)
    ensures AllWellFormed(ms[1..])
    ensures var (r1, out) := Step(r, ms[0].msg, ms[0].now);
            Run(r, ms) == (Run(r1, ms[1..]).0, [out] + Run(r1, ms[1..]).1)
  {
  }

  /** A certificate step is silent, drops the cache and restarts the save
      timer. */
  lemma CertStep(r: Recorder, m: Message, now: int)
    requires WellFormed(m) && IsCert(m)
    ensures Step(r, m, now).1 == Silent
    ensures Step(r, m, now).0.cache.None?
    ensures Step(r, m, now).0.saveAt == Some(now + SaveDelay)
  {
  }

  /** When the save timer then fires, exactly one snapshot is written: that
      of the store after the whole burst, and no save is pending after it. */
  lemma BurstThenSave(r: Recorder, ms: seq<Timed>, now: int)
    requires ms != [] && AllWellFormed(ms)
    requires AllCerts(ms)
    ensures var (r', _) := Run(r, ms);
            var (r'', out) := Step(r', SaveTimerFired, now);
            && out == Save(EventStore.Snapshot(r'.store))
            && r''.store == r'.store
            && r''.saveAt.None?
            && Durable(r'', out.events)
  {
    BurstDefersSave(r, ms);
  }

  /** How starting the recorder can end. */
  datatype Startup = Started(recorder: Recorder) | Failed(err: EventStore.LoadError)

  /** The state the loop starts in on `store`: the snapshot is built once
      before the first message, the save timer is stopped, and the hourly
      timer is due an hour from now. */
  function Running(store: EventStore.Store, now: int): Recorder {
    var (_, cache) := EventStore.GetEventsList(store, None);
    Recorder(store, cache, None, now + ExpiryInterval)
  }

  /** Start the recorder at clock reading `now`, loading the history file
      as the program does. A history file that does not exist gives an
      empty store; any other failure to open or decode it stops the start.
      Each saved slice is loaded in slice order. */
  function NewRecorder(outcome: EventStore.ReadOutcome, now: int): (s: Startup)
    ensures outcome.OpenFailed? ==> (s.Started? <==> outcome.notExist)
    ensures outcome.OpenFailed? && outcome.notExist ==> s.recorder.store == map[]
    ensures outcome.OpenFailed? && !outcome.notExist ==> s == Failed(EventStore.OpenError(false))
    ensures outcome.DecodeFailed? ==> s == Failed(EventStore.DecodeError)
    ensures outcome.Decoded? ==> s.Started?
    ensures outcome.Decoded? ==> s.recorder.store.Keys == outcome.saved.Keys
    ensures outcome.Decoded? ==> forall u :: u in outcome.saved ==>
              s.recorder.store[u] == Fresh(outcome.saved[u], MinCreateTime(now))
    ensures s.Started? ==> && s.recorder.cache == Some(EventStore.Snapshot(s.recorder.store))
                           && s.recorder.saveAt.None?
                           && s.recorder.expireAt == now + ExpiryInterval
  {
    var loaded := EventStore.LoadEvents(outcome, now);
    if loaded.err.Some? && loaded.err != Some(EventStore.OpenError(true)) then
      Failed(loaded.err.value)
    else
      Started(Running(loaded.events.value, now))
  }

  /** The program's restart: a recorder with no save pending, restarted
      from the snapshot it last handed to the saver while none of its
      records has gone stale, comes back with every history reversed. */
  lemma RestartReverses(r: Recorder, file: EventStore.EventsMap, now: int)
    requires Durable(r, file) && r.saveAt.None?
    requires forall u :: u in r.store ==> AllFresh(r.store[u], MinCreateTime(now))
    ensures var store := NewRecorder(EventStore.Decoded(file), now).recorder.store;
            && store.Keys == r.store.Keys
            && forall u :: u in r.store ==> store[u] == Reverse(r.store[u])
  {
    EventStore.SaveLoadReverses(r.store, now);
    forall u | u in r.store
      ensures Fresh(r.store[u], MinCreateTime(now)) == r.store[u]
    {
      FreshKeepsFresh(r.store[u], MinCreateTime(now));
    }
  }

  /** Corrected start-up: the same, with each saved slice loaded from its
      end so that every history is oldest first again. */
  function NewRecorderInOrder(outcome: EventStore.ReadOutcome, now: int): (s: Startup)
    ensures outcome.OpenFailed? ==> (s.Started? <==> outcome.notExist)
    ensures outcome.OpenFailed? && outcome.notExist ==> s.recorder.store == map[]
    ensures outcome.OpenFailed? && !outcome.notExist ==> s == Failed(EventStore.OpenError(false))
    ensures outcome.DecodeFailed? ==> s == Failed(EventStore.DecodeError)
    ensures outcome.Decoded? ==> s.Started?
    ensures outcome.Decoded? ==> s.recorder.store.Keys == outcome.saved.Keys
    ensures outcome.Decoded? ==> forall u :: u in outcome.saved ==>
              s.recorder.store[u] == Fresh(Reverse(outcome.saved[u]), MinCreateTime(now))
    ensures s.Started? ==> && s.recorder.cache == Some(EventStore.Snapshot(s.recorder.store))
                           && s.recorder.saveAt.None?
                           && s.recorder.expireAt == now + ExpiryInterval
  {
    var loaded := EventStore.LoadEventsInOrder(outcome, now);
    if loaded.err.Some? && loaded.err != Some(EventStore.OpenError(true)) then
      Failed(loaded.err.value)
    else
      Started(Running(loaded.events.value, now))
  }

  /** With the corrected start-up, a recorder with no save pending,
      restarted from the snapshot it last handed to the saver while none of
      its records has gone stale, comes back with the same store. */
  lemma RestartRestores(r: Recorder, file: EventStore.EventsMap, now: int)
    requires Durable(r, file) && r.saveAt.None?
    requires forall u :: u in r.store ==> AllFresh(r.store[u], MinCreateTime(now))
    ensures NewRecorderInOrder(EventStore.Decoded(file), now).recorder.store == r.store
  {
    EventStore.SaveLoadIdentity(r.store, now);
  }

  /** A start without a history file gives an empty store, ordered up to
      any clock reading. */
  lemma EmptyStartOrdered(now: int, t: int)
    ensures var s := NewRecorder(EventStore.OpenFailed(true), now);
            s.Started? && EventStore.Ordered(s.recorder.store, t)
  {
  }

  /** The corrected start-up from the snapshot of an ordered store gives an
      ordered store again, so the loop can start from it. */
  lemma RestartInOrderOrdered(store: EventStore.Store, t: int, now: int)
    requires EventStore.Ordered(store, t) && t <= now
    ensures var s := NewRecorderInOrder(EventStore.Decoded(EventStore.Snapshot(store)), now);
            s.Started? && EventStore.Ordered(s.recorder.store, now)
  {
    EventStore.SaveLoadSortedIsExpiry(store, now);
    EventStore.ExpireKeepsOrdered(store, now, t);
    EventStore.OrderedLater(EventStore.ExpireOldEvents(store, now).0, t, now);
  }

  /** The program's start-up from the snapshot of an ordered store with two
      fresh records for one user gives a history that is not sorted, so the
      results that need sorted histories do not apply after that restart. */
  lemma RestartUnordered()
    ensures var store := map["alice" := [EventStore.Early, EventStore.Late]];
            var s := NewRecorder(EventStore.Decoded(EventStore.Snapshot(store)), RetentionSeconds);
            && EventStore.Ordered(store, RetentionSeconds + 200)
            && s.Started? && "alice" in s.recorder.store
            && !Sorted(s.recorder.store["alice"])
  {
    EventStore.ReloadReversesHistory();
    var store := map["alice" := [EventStore.Early, EventStore.Late]];
    assert Sorted(store["alice"]);
  }
}
