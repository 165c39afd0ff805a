/** The recorder's event store: every user's history, keyed by user name,
    together with the operations the recorder applies to it (record an
    issuance, expire old records), the snapshot projection handed to readers
    and to the saver, and the reconstruction of a store from a saved
    snapshot. */
module EventStore {
  import opened Types
  import opened History
  import Quantise

  /** User name to that user's history, oldest record first. */
  type Store = map<string, History>

  /** User name to that user's history, newest record first: what readers
      receive and what the saver writes. */
  type EventsMap = map<string, seq<Event>>

  function HistoryOf(store: Store, user: string): History {
    if user in store then store[user] else []
  }

  /** Link a record in as the user's newest one, creating the user's entry
      when there is none. */
  function Append(store: Store, user: string, e: Event): (s: Store)
    ensures s.Keys == store.Keys + {user}
    ensures s[user] == HistoryOf(store, user) + [e]
    ensures forall u :: u in store && u != user ==> s[u] == store[u]
  {
    store[user := HistoryOf(store, user) + [e]]
  }

  /** Record one issuance at clock reading `now`, lifetime in whole seconds. */
  function RecordEvent(store: Store, user: string, lifetime: uint32, now: int, ssh: bool, x509: bool): (s: Store)
    ensures s.Keys == store.Keys + {user}
    ensures |s[user]| == |HistoryOf(store, user)| + 1
    ensures s[user][..|s[user]| - 1] == HistoryOf(store, user)
    ensures var e := s[user][|s[user]| - 1];
            && e.createTime == ToUint64(now)
            && e.lifetimeSeconds == Quantise.QuantiseSpec(lifetime)
            && lifetime <= e.lifetimeSeconds
            && e.ssh == ssh && e.x509 == x509
    ensures forall u :: u in store && u != user ==> s[u] == store[u]
  {
    var e := Event(ToUint64(now), Quantise.Quantise(lifetime), ssh, x509);
    var s := Append(store, user, e);
    assert s[user][..|s[user]| - 1] == HistoryOf(store, user);
    s
  }

  /** Every user's history with its stale prefix cut, user entries kept. */
  function ExpireAll(store: Store, cutoff: uint64): Store {
    map u | u in store :: ExpireHistory(store[u], cutoff)
  }

  /** Some history got shorter exactly when the store changed. */
  lemma ExpireAllChanged(store: Store, cutoff: uint64)
    ensures var s := ExpireAll(store, cutoff);
            (exists u :: u in store && |s[u]| < |store[u]|) <==> s != store
  {
  }

  /** Expire records created before one retention window ago. The flag says
      whether any record was removed. */
  function ExpireOldEvents(store: Store, now: int): (res: (Store, bool))
    ensures res.0.Keys == store.Keys
    ensures forall u :: u in store ==> res.0[u] == ExpireHistory(store[u], MinCreateTime(now))
    ensures res.1 <==> res.0 != store
  {
    var cutoff := MinCreateTime(now);
    var s := ExpireAll(store, cutoff);
    ExpireAllChanged(store, cutoff);
    (s, exists u :: u in store && |s[u]| < |store[u]|)
  }

  /** Expiring twice at the same clock reading changes nothing the second
      time, and no user entry ever disappears. */
  lemma ExpireOldEventsIdempotent(store: Store, now: int)
    ensures var (s, _) := ExpireOldEvents(store, now);
            && s.Keys == store.Keys
            && ExpireOldEvents(s, now) == (s, false)
  {
  }

  /** Every history is sorted oldest first and holds nothing created after
      clock reading `t`: the shape the recorder's appends in arrival order
      give, and the one expiry's early stop and the snapshot's order rely
      on. */
  ghost predicate Ordered(store: Store, t: int) {
    forall u :: u in store ==> Sorted(store[u]) && NotAfter(store[u], t)
  }

  /** A store ordered up to `t` is ordered up to any later reading. */
  lemma OrderedLater(store: Store, t: int, t': int)
    requires Ordered(store, t) && t <= t'
    ensures Ordered(store, t')
  {
  }

  /** Recording at a clock reading no earlier than any record keeps the
      store ordered, now up to that reading. */
  lemma RecordKeepsOrdered(store: Store, user: string, lifetime: uint32, now: int, ssh: bool, x509: bool)
    requires 0 <= now < TWO_64 && Ordered(store, now)
    ensures Ordered(RecordEvent(store, user, lifetime, now, ssh, x509), now)
  {
    var s := RecordEvent(store, user, lifetime, now, ssh, x509);
    var h := HistoryOf(store, user);
    var e := s[user][|s[user]| - 1];
    assert s[user] == h + [e];
    assert e.createTime as int == now;
    SortedSnoc(h, e);
    forall u | u in s
      ensures Sorted(s[u]) && NotAfter(s[u], now)
    {
      if u == user {
        assert NotAfter(h + [e], now);
      }
    }
  }

  /** Expiry keeps the store ordered: each history keeps a suffix. */
  lemma ExpireKeepsOrdered(store: Store, now: int, t: int)
    requires Ordered(store, t)
    ensures Ordered(ExpireOldEvents(store, now).0, t)
  {
    var s := ExpireOldEvents(store, now).0;
    var cutoff := MinCreateTime(now);
    forall u | u in s
      ensures Sorted(s[u]) && NotAfter(s[u], t)
    {
      SortedSuffix(store[u], StaleCount(store[u], cutoff));
    }
  }

  /** The projection a reader sees: every user, newest record first. */
  function Snapshot(store: Store): EventsMap {
    map u | u in store :: Reverse(store[u])
  }

  /** The snapshot lists every user of the store, each with the same records
      as the history, the newest first. */
  lemma SnapshotNewestFirst(store: Store, u: string)
    requires u in store
    ensures Snapshot(store).Keys == store.Keys
    ensures |Snapshot(store)[u]| == |store[u]|
    ensures forall i :: 0 <= i < |store[u]| ==> Snapshot(store)[u][i] == store[u][|store[u]| - 1 - i]
    ensures Sorted(store[u]) ==> forall i, j :: 0 <= i <= j < |store[u]| ==>
              Snapshot(store)[u][i].createTime >= Snapshot(store)[u][j].createTime
  {
    if Sorted(store[u]) {
      var h, snap := store[u], Snapshot(store)[u];
      forall i, j | 0 <= i <= j < |h|
        ensures snap[i].createTime >= snap[j].createTime
      {
        SortedAt(h, |h| - 1 - j, |h| - 1 - i);
      }
    }
  }

  /** Return the cached snapshot when there is one; otherwise build it from
      the store and cache it. */
  function GetEventsList(store: Store, cache: Option<EventsMap>): (res: (EventsMap, Option<EventsMap>))
    ensures cache.Some? ==> res == (cache.value, cache)
    ensures cache.None? ==> res.0.Keys == store.Keys
    ensures cache.None? ==> forall u :: u in store ==> res.0[u] == Reverse(store[u])
    ensures res.1 == Some(res.0)
  {
    match cache
    case Some(snap) => (snap, cache)
    case None =>
      var snap := Snapshot(store);
      (snap, Some(snap))
  }

  /** Why opening or decoding the history file failed. */
  datatype LoadError = OpenError(notExist: bool) | DecodeError

  /** What the file layer hands back: the file could not be opened, it
      could not be decoded, or it decoded to a saved snapshot. */
  datatype ReadOutcome = OpenFailed(notExist: bool) | DecodeFailed | Decoded(saved: EventsMap)

  datatype LoadResult = LoadResult(events: Option<Store>, err: Option<LoadError>)

  /** Load the store at startup. An unopenable file yields an empty store
      together with the error; an undecodable one yields only the error. */
  function LoadEvents(outcome: ReadOutcome, now: int): (res: LoadResult)
    ensures outcome.OpenFailed? ==> res == LoadResult(Some(map[]), Some(OpenError(outcome.notExist)))
    ensures outcome.DecodeFailed? ==> res == LoadResult(None, Some(DecodeError))
    ensures outcome.Decoded? ==> res.err.None? && res.events.Some?
    ensures outcome.Decoded? ==> res.events.value.Keys == outcome.saved.Keys
    ensures outcome.Decoded? ==> forall u :: u in outcome.saved ==>
              res.events.value[u] == Fresh(outcome.saved[u], MinCreateTime(now))
  {
    match outcome
    case OpenFailed(notExist) => LoadResult(Some(map[]), Some(OpenError(notExist)))
    case DecodeFailed => LoadResult(None, Some(DecodeError))
    case Decoded(saved) =>
      var cutoff := MinCreateTime(now);
      LoadResult(Some(map u | u in saved :: Fresh(saved[u], cutoff)), None)
  }

  /** Saving a snapshot and loading it back reverses every user's history
      (after dropping stale records): the round trip is not the identity. */
  lemma SaveLoadReverses(store: Store, now: int)
    ensures var res := LoadEvents(Decoded(Snapshot(store)), now);
            && res.events.Some?
            && res.events.value.Keys == store.Keys
            && forall u :: u in store ==>
                 res.events.value[u] == Reverse(Fresh(store[u], MinCreateTime(now)))
  {
    var res := LoadEvents(Decoded(Snapshot(store)), now);
    forall u | u in store
      ensures res.events.value[u] == Reverse(Fresh(store[u], MinCreateTime(now)))
    {
      FreshReverse(store[u], MinCreateTime(now));
    }
  }

  /** A concrete restart: two records of one user come back newest first. */
  lemma ReloadReversesHistory()
    ensures var store := map["alice" := [Early, Late]];
            var loaded := LoadEvents(Decoded(Snapshot(store)), RetentionSeconds).events.value;
            loaded.Keys == {"alice"} && loaded["alice"] == [Late, Early]
  {
    var store := map["alice" := [Early, Late]];
    SaveLoadReverses(store, RetentionSeconds);
    assert MinCreateTime(RetentionSeconds) == 0;
    FreshKeepsFresh([Early, Late], 0);
    assert Reverse([Early, Late]) == [Late, Early];
  }

  /** Two records of one user, created 100 s apart. */
  const Early := Event(RetentionSeconds + 100, 60, true, false)
  const Late := Event(RetentionSeconds + 200, 60, true, false)

  /** After that restart the hourly expiry keeps the stale record, which the
      same expiry on the original history removes. */
  lemma ReloadedExpiryKeepsStale()
    ensures var now := 2 * RetentionSeconds + 150;
            && ExpireOldEvents(map["alice" := [Late, Early]], now).0["alice"] == [Late, Early]
            && ExpireOldEvents(map["alice" := [Early, Late]], now).0["alice"] == [Late]
  {
  }

  /** Corrected reconstruction: the saved slice is newest first, so walk it
      from its end so that the rebuilt history is oldest first again. */
  function LoadEventsInOrder(outcome: ReadOutcome, now: int): (res: LoadResult)
    ensures outcome.OpenFailed? ==> res == LoadResult(Some(map[]), Some(OpenError(outcome.notExist)))
    ensures outcome.DecodeFailed? ==> res == LoadResult(None, Some(DecodeError))
    ensures outcome.Decoded? ==> res.err.None? && res.events.Some?
    ensures outcome.Decoded? ==> res.events.value.Keys == outcome.saved.Keys
    ensures outcome.Decoded? ==> forall u :: u in outcome.saved ==>
              res.events.value[u] == Fresh(Reverse(outcome.saved[u]), MinCreateTime(now))
  {
    match outcome
    case OpenFailed(notExist) => LoadResult(Some(map[]), Some(OpenError(notExist)))
    case DecodeFailed => LoadResult(None, Some(DecodeError))
    case Decoded(saved) =>
      var cutoff := MinCreateTime(now);
      LoadResult(Some(map u | u in saved :: Fresh(Reverse(saved[u]), cutoff)), None)
  }

  /** With the corrected reconstruction a save and a load give back every
      history in its original order, minus the stale records. */
  lemma SaveLoadRoundTrip(store: Store, now: int)
    ensures var loaded := LoadEventsInOrder(Decoded(Snapshot(store)), now).events.value;
            && loaded.Keys == store.Keys
            && forall u :: u in store ==> loaded[u] == Fresh(store[u], MinCreateTime(now))
  {
    var snap := Snapshot(store);
    forall u | u in store
      ensures Reverse(snap[u]) == store[u]
    {
      ReverseReverse(store[u]);
    }
  }

  /** On sorted histories the corrected round trip leaves exactly what the
      hourly expiry at the same clock reading would leave. */
  lemma SaveLoadSortedIsExpiry(store: Store, now: int)
    requires forall u :: u in store ==> Sorted(store[u])
    ensures LoadEventsInOrder(Decoded(Snapshot(store)), now).events.value == ExpireAll(store, MinCreateTime(now))
  {
    var loaded := LoadEventsInOrder(Decoded(Snapshot(store)), now).events.value;
    var expired := ExpireAll(store, MinCreateTime(now));
    assert forall u :: u in store ==> loaded[u] == expired[u] by {
      forall u | u in store
        ensures loaded[u] == expired[u]
      {
        SortedUserRoundTrip(store, now, u);
      }
    }
    SameEntries(loaded, expired);
  }

  /** Two maps with the same keys and the same entry under every key are
      the same map. */
  lemma SameEntries(a: Store, b: Store)
    requires a.Keys == b.Keys
    requires forall u :: u in a ==> a[u] == b[u]
    ensures a == b
  {
  }

  lemma SortedUserRoundTrip(store: Store, now: int, u: string)
    requires u in store && Sorted(store[u])
    ensures LoadEventsInOrder(Decoded(Snapshot(store)), now).events.value[u] == ExpireAll(store, MinCreateTime(now))[u]
  {
    SaveLoadRoundTrip(store, now);
    ExpireSortedIsFresh(store[u], MinCreateTime(now));
  }

  /** When nothing is stale the corrected round trip is the identity. */
  lemma SaveLoadIdentity(store: Store, now: int)
    requires forall u :: u in store ==> AllFresh(store[u], MinCreateTime(now))
    ensures LoadEventsInOrder(Decoded(Snapshot(store)), now).events.value == store
  {
    var loaded := LoadEventsInOrder(Decoded(Snapshot(store)), now).events.value;
    SaveLoadRoundTrip(store, now);
    forall u | u in store
      ensures loaded[u] == store[u]
    {
      FreshKeepsFresh(store[u], MinCreateTime(now));
    }
  }
}
