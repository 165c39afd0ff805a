/** The doubly linked chain that holds one user's history in the program,
    modelled as an arena: nodes live in a map from handle to node, and the
    `older`/`newer` links and the `oldest`/`newest` ends are handles. A
    handle sequence, oldest first, relates a chain to the History it
    represents; the operations below are shown to refine the sequence
    operations of module History. */
module Chain {
  import opened Types
  import opened History

  type NodeId = nat

  datatype Node = Node(event: Event, older: Option<NodeId>, newer: Option<NodeId>)

  /** One user's chain: its nodes, its two ends, and the next unused handle
      (a fresh allocation). */
  datatype EventsList = EventsList(nodes: map<NodeId, Node>, oldest: Option<NodeId>, newest: Option<NodeId>, next: NodeId)

  const Empty: EventsList := EventsList(map[], None, None, 0)

  /** The handle at position i of ids, or nil off either end. */
  function Link(ids: seq<NodeId>, i: int): Option<NodeId> {
    if 0 <= i < |ids| then Some(ids[i]) else None
  }

  /** `ids` lists the chain of `l` from oldest to newest: handles are
      allocated in increasing order, the ends are the first and last
      handles, and each node links to its neighbours (nil past either end). */
  ghost predicate Valid(l: EventsList, ids: seq<NodeId>) {
    && (forall i, j :: 0 <= i < j < |ids| ==> ids[i] < ids[j])
    && (forall i :: 0 <= i < |ids| ==> ids[i] < l.next && ids[i] in l.nodes)
    && l.oldest == Link(ids, 0)
    && l.newest == Link(ids, |ids| - 1)
    && (forall i :: 0 <= i < |ids| ==> LinkedAt(l, ids, i))
  }

  /** The node at position i of ids links to its neighbours in ids. */
  ghost predicate LinkedAt(l: EventsList, ids: seq<NodeId>, i: int) {
    && 0 <= i < |ids|
    && ids[i] in l.nodes
    && l.nodes[ids[i]].older == Link(ids, i - 1)
    && l.nodes[ids[i]].newer == Link(ids, i + 1)
  }

  /** The records of the nodes listed by ids, in that order. */
  function Contents(l: EventsList, ids: seq<NodeId>): History
    requires forall i :: 0 <= i < |ids| ==> ids[i] in l.nodes
  {
    seq(|ids|, i requires 0 <= i < |ids| => l.nodes[ids[i]].event)
  }

  /** The ends of a chain are both nil or both set, the oldest node has no
      older neighbour and the newest no newer one. */
  predicate EndsConsistent(l: EventsList) {
    && (l.oldest.None? <==> l.newest.None?)
    && (l.oldest.Some? ==> l.oldest.value in l.nodes && l.nodes[l.oldest.value].older.None?)
    && (l.newest.Some? ==> l.newest.value in l.nodes && l.nodes[l.newest.value].newer.None?)
  }

  lemma ValidEnds(l: EventsList, ids: seq<NodeId>)
    requires Valid(l, ids)
    ensures EndsConsistent(l)
    ensures l.oldest.None? <==> ids == []
  {
    if ids != [] {
      assert LinkedAt(l, ids, 0) && LinkedAt(l, ids, |ids| - 1);
    }
  }

  /** Handles are strictly increasing naturals below `next`, so there are at
      most `next` of them: `next` is enough fuel for a walk. */
  lemma {:induction false} HandlesBound(l: EventsList, ids: seq<NodeId>)
    requires Valid(l, ids)
    ensures |ids| <= l.next
  {
    if ids != [] {
      forall k | 0 <= k < |ids|
        ensures ids[k] >= k
      {
        HandleAtLeastIndex(ids, k);
      }
      assert ids[|ids| - 1] >= |ids| - 1;
    }
  }

  lemma {:induction false} HandleAtLeastIndex(ids: seq<NodeId>, k: nat)
    requires forall i, j :: 0 <= i < j < |ids| ==> ids[i] < ids[j]
    requires k < |ids|
    ensures ids[k] >= k
  {
    if k > 0 {
      HandleAtLeastIndex(ids, k - 1);
    }
  }

  /** Walk from a node toward the oldest end via `older`, collecting the
      records; `fuel` bounds the walk. */
  function WalkOlder(l: EventsList, from: Option<NodeId>, fuel: nat): seq<Event>
    decreases fuel
  {
    if fuel == 0 || from.None? || from.value !in l.nodes then []
    else [l.nodes[from.value].event] + WalkOlder(l, l.nodes[from.value].older, fuel - 1)
  }

  /** Walk from a node toward the newest end via `newer`. */
  function WalkNewer(l: EventsList, from: Option<NodeId>, fuel: nat): seq<Event>
    decreases fuel
  {
    if fuel == 0 || from.None? || from.value !in l.nodes then []
    else [l.nodes[from.value].event] + WalkNewer(l, l.nodes[from.value].newer, fuel - 1)
  }

  /** The snapshot walk: from `newest` via `older` until nil. */
  function NewestFirst(l: EventsList): seq<Event> {
    WalkOlder(l, l.newest, l.next)
  }

  function OldestFirst(l: EventsList): seq<Event> {
    WalkNewer(l, l.oldest, l.next)
  }

  lemma {:induction false} WalkOlderFrom(l: EventsList, ids: seq<NodeId>, k: nat, fuel: nat)
    requires Valid(l, ids)
    requires k <= |ids| && k <= fuel
    ensures WalkOlder(l, Link(ids, k - 1), fuel) == Reverse(Contents(l, ids)[..k])
  {
    var c := Contents(l, ids);
    if k > 0 {
      assert LinkedAt(l, ids, k - 1);
      WalkOlderFrom(l, ids, k - 1, fuel - 1);
      assert c[..k][..k - 1] == c[..k - 1];
    }
  }

  lemma {:induction false} WalkNewerFrom(l: EventsList, ids: seq<NodeId>, k: nat, fuel: nat)
    requires Valid(l, ids)
    requires k <= |ids| && |ids| - k <= fuel
    ensures WalkNewer(l, Link(ids, k), fuel) == Contents(l, ids)[k..]
    decreases |ids| - k
  {
    var c := Contents(l, ids);
    if k < |ids| {
      assert LinkedAt(l, ids, k);
      WalkNewerFrom(l, ids, k + 1, fuel - 1);
      assert c[k..] == [c[k]] + c[k + 1..];
    }
  }

  /** Walking a valid chain from `newest` via `older` yields its history
      reversed; walking from `oldest` via `newer` yields the history
      itself. */
  lemma Walks(l: EventsList, ids: seq<NodeId>)
    requires Valid(l, ids)
    ensures NewestFirst(l) == Reverse(Contents(l, ids))
    ensures OldestFirst(l) == Contents(l, ids)
  {
    HandlesBound(l, ids);
    var c := Contents(l, ids);
    WalkOlderFrom(l, ids, |ids|, l.next);
    assert c[..|ids|] == c;
    WalkNewerFrom(l, ids, 0, l.next);
    assert c[0..] == c;
  }

  /** Link a new node in at the newest end. */
  function AppendEvent(l: EventsList, e: Event): EventsList {
    var id := l.next;
    var nodes :=
      if l.newest.Some? && l.newest.value in l.nodes
      then l.nodes[l.newest.value := l.nodes[l.newest.value].(newer := Some(id))]
      else l.nodes;
    EventsList(nodes[id := Node(e, l.newest, None)],
               if l.oldest.None? then Some(id) else l.oldest,
               Some(id), id + 1)
  }

  lemma AppendLinks(l: EventsList, ids: seq<NodeId>, e: Event, i: nat)
    requires Valid(l, ids) && i <= |ids|
    ensures LinkedAt(AppendEvent(l, e), ids + [l.next], i)
  {
    var l', ids' := AppendEvent(l, e), ids + [l.next];
    if i < |ids| {
      assert LinkedAt(l, ids, i);
      assert ids'[i] == ids[i] && ids[i] < l.next;
      assert Link(ids', i - 1) == Link(ids, i - 1);
      if i < |ids| - 1 {
        assert ids[i] < ids[|ids| - 1];
        assert l'.nodes[ids[i]] == l.nodes[ids[i]];
        assert Link(ids', i + 1) == Link(ids, i + 1);
      } else {
        assert l.newest == Some(ids[i]);
      }
    } else if ids != [] {
      assert l.newest == Some(ids[|ids| - 1]);
    }
  }

  /** Appending keeps the chain valid, allocates one handle at the newest
      end, and appends the record to the history. */
  lemma AppendValid(l: EventsList, ids: seq<NodeId>, e: Event)
    requires Valid(l, ids)
    ensures Valid(AppendEvent(l, e), ids + [l.next])
    ensures Contents(AppendEvent(l, e), ids + [l.next]) == Contents(l, ids) + [e]
  {
    var l', ids' := AppendEvent(l, e), ids + [l.next];
    forall i | 0 <= i < |ids'|
      ensures LinkedAt(l', ids', i)
    {
      AppendLinks(l, ids, e, i);
    }
    forall i | 0 <= i < |ids|
      ensures l'.nodes[ids[i]].event == l.nodes[ids[i]].event
    {
      assert ids[i] < l.next;
    }
    assert Contents(l', ids') == Contents(l, ids) + [e];
  }

  /** Remove the oldest node `id`: its newer neighbour, if any, becomes the
      oldest end and loses its `older` link; otherwise the chain empties. */
  function Unlink(l: EventsList, id: NodeId): (r: EventsList)
    requires id in l.nodes
    ensures r.nodes.Keys == l.nodes.Keys - {id}
  {
    var rest := l.nodes - {id};
    match l.nodes[id].newer
    case None => l.(nodes := rest, oldest := None, newest := None)
    case Some(nid) =>
      l.(nodes := if nid in rest then rest[nid := rest[nid].(older := None)] else rest,
         oldest := Some(nid))
  }

  /** Unlink the oldest node while it is older than `cutoff`, freeing it;
      stop at the first node that is not. The flag says whether any node
      was removed. */
  function ExpireList(l: EventsList, cutoff: uint64): (res: (EventsList, bool))
    decreases l.nodes.Keys
  {
    match l.oldest
    case None => (l, false)
    case Some(id) =>
      if id !in l.nodes || l.nodes[id].event.createTime >= cutoff then (l, false)
      else (ExpireList(Unlink(l, id), cutoff).0, true)
  }

  lemma UnlinkLinks(l: EventsList, ids: seq<NodeId>, i: nat)
    requires Valid(l, ids) && i + 1 < |ids|
    ensures LinkedAt(Unlink(l, ids[0]), ids[1..], i)
    ensures Unlink(l, ids[0]).nodes[ids[i + 1]].event == l.nodes[ids[i + 1]].event
  {
    var l', ids' := Unlink(l, ids[0]), ids[1..];
    assert LinkedAt(l, ids, 0) && LinkedAt(l, ids, i + 1);
    assert ids'[i] == ids[i + 1] && ids[0] < ids[i + 1];
    assert Link(ids', i + 1) == Link(ids, i + 2);
    if i > 0 {
      assert ids[1] < ids[i + 1];
      assert Link(ids', i - 1) == Link(ids, i);
    }
  }

  /** After unlinking, every remaining node still links to its neighbours
      and keeps its record. */
  lemma UnlinkLinksAll(l: EventsList, ids: seq<NodeId>)
    requires Valid(l, ids) && ids != []
    ensures forall i :: 0 <= i < |ids| - 1 ==> LinkedAt(Unlink(l, ids[0]), ids[1..], i)
    ensures forall i :: 1 <= i < |ids| ==> Unlink(l, ids[0]).nodes[ids[i]].event == l.nodes[ids[i]].event
  {
    forall i | 0 <= i < |ids| - 1
      ensures LinkedAt(Unlink(l, ids[0]), ids[1..], i)
    {
      UnlinkLinks(l, ids, i);
    }
    forall i | 1 <= i < |ids|
      ensures Unlink(l, ids[0]).nodes[ids[i]].event == l.nodes[ids[i]].event
    {
      UnlinkLinks(l, ids, i - 1);
    }
  }

  /** After unlinking, the chain's ends are the first and last remaining
      handles. */
  lemma UnlinkEnds(l: EventsList, ids: seq<NodeId>)
    requires Valid(l, ids) && ids != []
    ensures Unlink(l, ids[0]).oldest == Link(ids[1..], 0)
    ensures Unlink(l, ids[0]).newest == Link(ids[1..], |ids| - 2)
  {
    assert LinkedAt(l, ids, 0);
    if |ids| > 1 {
      assert l.nodes[ids[0]].newer == Some(ids[1]);
    }
  }

  /** Unlinking the oldest node of a valid chain leaves a valid chain of the
      remaining handles holding the rest of the history. */
  lemma UnlinkValid(l: EventsList, ids: seq<NodeId>)
    requires Valid(l, ids) && ids != []
    ensures Valid(Unlink(l, ids[0]), ids[1..])
    ensures Contents(Unlink(l, ids[0]), ids[1..]) == Contents(l, ids)[1..]
  {
    var l', ids' := Unlink(l, ids[0]), ids[1..];
    UnlinkLinksAll(l, ids);
    UnlinkEnds(l, ids);
    assert forall i :: 0 <= i < |ids'| ==> ids'[i] < l'.next && ids'[i] in l'.nodes by {
      forall i | 0 <= i < |ids'|
        ensures ids'[i] < l'.next && ids'[i] in l'.nodes
      {
        assert LinkedAt(l', ids', i);
        assert ids'[i] == ids[i + 1];
      }
    }
    assert Contents(l', ids') == Contents(l, ids)[1..];
  }

  /** Expiry on a valid chain is expiry on the history it holds: the chain
      that remains is valid over the surviving handles, holds exactly what
      ExpireHistory leaves, and the flag is set iff a node was removed. */
  lemma {:induction false} ExpireListRefines(l: EventsList, ids: seq<NodeId>, cutoff: uint64)
    requires Valid(l, ids)
    ensures var h := Contents(l, ids);
            var k := StaleCount(h, cutoff);
            && Valid(ExpireList(l, cutoff).0, ids[k..])
            && Contents(ExpireList(l, cutoff).0, ids[k..]) == ExpireHistory(h, cutoff)
            && (ExpireList(l, cutoff).1 <==> k > 0)
    decreases |ids|
  {
    var h := Contents(l, ids);
    if ids == [] {
      assert l.oldest.None?;
    } else if h[0].createTime >= cutoff {
      assert l.oldest == Some(ids[0]);
      assert ids[0..] == ids;
    } else {
      assert l.oldest == Some(ids[0]);
      var l' := Unlink(l, ids[0]);
      UnlinkValid(l, ids);
      assert ExpireList(l, cutoff) == (ExpireList(l', cutoff).0, true);
      ExpireListRefines(l', ids[1..], cutoff);
      var k' := StaleCount(h[1..], cutoff);
      assert StaleCount(h, cutoff) == k' + 1;
      assert h[1..][k'..] == h[k' + 1..];
      assert ids[1..][k'..] == ids[k' + 1..];
    }
  }

  /** One step of the loader: a stale record is skipped, a fresh one is
      appended, and the chain holds the filtered prefix read so far. */
  lemma LoadStep(l: EventsList, ids: seq<NodeId>, saved: seq<Event>, i: nat, cutoff: uint64)
    requires Valid(l, ids) && i < |saved|
    requires Contents(l, ids) == Fresh(saved[..i], cutoff)
    ensures saved[i].createTime < cutoff ==> Contents(l, ids) == Fresh(saved[..i + 1], cutoff)
    ensures saved[i].createTime >= cutoff ==>
              && Valid(AppendEvent(l, saved[i]), ids + [l.next])
              && Contents(AppendEvent(l, saved[i]), ids + [l.next]) == Fresh(saved[..i + 1], cutoff)
  {
    FreshAppend(saved[..i], [saved[i]], cutoff);
    assert saved[..i + 1] == saved[..i] + [saved[i]];
    AppendValid(l, ids, saved[i]);
  }

  /** Rebuild a chain from a saved slice as the loader does: append the
      records in slice order, skipping those older than `cutoff`. `ids`
      lists the handles of the rebuilt chain, oldest first, so that it can
      be handed on to the append and expiry lemmas. */
  method LoadList(saved: seq<Event>, cutoff: uint64) returns (l: EventsList, ghost ids: seq<NodeId>)
    ensures Valid(l, ids) && Contents(l, ids) == Fresh(saved, cutoff)
    ensures EndsConsistent(l)
    ensures OldestFirst(l) == Fresh(saved, cutoff)
    ensures NewestFirst(l) == Reverse(Fresh(saved, cutoff))
  {
    l := Empty;
    ids := [];
    for i := 0 to |saved|
      invariant Valid(l, ids)
      invariant Contents(l, ids) == Fresh(saved[..i], cutoff)
    {
      LoadStep(l, ids, saved, i, cutoff);
      if saved[i].createTime < cutoff {
        continue;
      }
      ids := ids + [l.next];
      l := AppendEvent(l, saved[i]);
    }
    assert saved[..|saved|] == saved;
    ValidEnds(l, ids);
    Walks(l, ids);
  }
}
