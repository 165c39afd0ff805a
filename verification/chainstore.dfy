/** The program's store as it is actually laid out: one linked chain per
    user. Recording, expiry and the snapshot walk on this layout are shown
    to agree with the sequence-level operations of module EventStore. */
module ChainStore {
  import opened Types
  import opened History
  import opened Chain
  import EventStore

  type Chains = map<string, EventsList>

  /** `ids` gives, for every user, the handles of that user's chain oldest
      first, and the chains hold exactly the histories of `store`. */
  ghost predicate Represents(cs: Chains, ids: map<string, seq<NodeId>>, store: EventStore.Store) {
    && cs.Keys == ids.Keys == store.Keys
    && (forall u :: u in cs ==> Valid(cs[u], ids[u]) && Contents(cs[u], ids[u]) == store[u])
  }

  /** Record an event for `user`, creating an empty chain when absent. */
  function RecordChain(cs: Chains, user: string, e: Event): Chains {
    cs[user := AppendEvent(if user in cs then cs[user] else Empty, e)]
  }

  /** The handles after recording for `user`: the user's chain gains the
      freshly allocated handle at its newest end. */
  ghost function RecordIds(cs: Chains, ids: map<string, seq<NodeId>>, user: string): map<string, seq<NodeId>> {
    var l, uids := if user in cs then cs[user] else Empty, if user in ids then ids[user] else [];
    ids[user := uids + [l.next]]
  }

  /** The recording user's own chain after the append. */
  lemma RecordUser(cs: Chains, ids: map<string, seq<NodeId>>, store: EventStore.Store, user: string, e: Event)
    requires Represents(cs, ids, store)
    ensures var l := if user in cs then cs[user] else Empty;
            var uids := if user in cs then ids[user] else [];
            && Valid(AppendEvent(l, e), uids + [l.next])
            && Contents(AppendEvent(l, e), uids + [l.next]) == EventStore.HistoryOf(store, user) + [e]
  {
    var l, uids := if user in cs then cs[user] else Empty, if user in cs then ids[user] else [];
    assert Valid(l, uids) && Contents(l, uids) == EventStore.HistoryOf(store, user);
    AppendValid(l, uids, e);
  }

  /** Recording on the chains is recording on the store: the handles of the
      recording user grow by the freshly allocated one, the rest stay. */
  lemma RecordChainRefines(cs: Chains, ids: map<string, seq<NodeId>>, store: EventStore.Store, user: string, e: Event)
    requires Represents(cs, ids, store)
    ensures Represents(RecordChain(cs, user, e), RecordIds(cs, ids, user), EventStore.Append(store, user, e))
  {
    var ids' := RecordIds(cs, ids, user);
    var cs', store' := RecordChain(cs, user, e), EventStore.Append(store, user, e);
    RecordUser(cs, ids, store, user, e);
    assert cs'.Keys == ids'.Keys == store'.Keys;
    forall u | u in cs'
      ensures Valid(cs'[u], ids'[u]) && Contents(cs'[u], ids'[u]) == store'[u]
    {
      if u != user {
        assert cs'[u] == cs[u] && ids'[u] == ids[u] && store'[u] == store[u];
      }
    }
  }

  /** The snapshot walk over every chain. */
  function SnapshotChains(cs: Chains): EventStore.EventsMap {
    map u | u in cs :: NewestFirst(cs[u])
  }

  /** Walking every chain newest first gives the snapshot of the store. */
  lemma SnapshotChainsRefines(cs: Chains, ids: map<string, seq<NodeId>>, store: EventStore.Store)
    requires Represents(cs, ids, store)
    ensures SnapshotChains(cs) == EventStore.Snapshot(store)
  {
    var a, b := SnapshotChains(cs), EventStore.Snapshot(store);
    assert forall u :: u in a ==> a[u] == b[u] by {
      forall u | u in a
        ensures a[u] == b[u]
      {
        Walks(cs[u], ids[u]);
      }
    }
    EventStore.SameEntries(a, b);
  }

  /** Expire every chain; the flag says whether any chain lost a node. */
  function ExpireChains(cs: Chains, now: int): (Chains, bool) {
    var cutoff := MinCreateTime(now);
    (map u | u in cs :: ExpireList(cs[u], cutoff).0,
     exists u :: u in cs && ExpireList(cs[u], cutoff).1)
  }

  /** The handles after expiry: each chain keeps the handles past its
      stale prefix. */
  ghost function ExpireIds(cs: Chains, ids: map<string, seq<NodeId>>, store: EventStore.Store, now: int): map<string, seq<NodeId>>
    requires Represents(cs, ids, store)
  {
    map u | u in ids :: ids[u][StaleCount(store[u], MinCreateTime(now))..]
  }

  /** Expiry over the chains is expiry over the store, flag included. */
  lemma ExpireChainsRefines(cs: Chains, ids: map<string, seq<NodeId>>, store: EventStore.Store, now: int)
    requires Represents(cs, ids, store)
    ensures Represents(ExpireChains(cs, now).0, ExpireIds(cs, ids, store, now), EventStore.ExpireOldEvents(store, now).0)
    ensures ExpireChains(cs, now).1 == EventStore.ExpireOldEvents(store, now).1
  {
    var cutoff := MinCreateTime(now);
    var ids' := ExpireIds(cs, ids, store, now);
    var (cs', changed) := ExpireChains(cs, now);
    var (store', changed') := EventStore.ExpireOldEvents(store, now);
    forall u | u in cs
      ensures Valid(cs'[u], ids'[u]) && Contents(cs'[u], ids'[u]) == store'[u]
      ensures ExpireList(cs[u], cutoff).1 <==> |store'[u]| < |store[u]|
    {
      ExpireListRefines(cs[u], ids[u], cutoff);
    }
    EventStore.ExpireAllChanged(store, cutoff);
  }
}
