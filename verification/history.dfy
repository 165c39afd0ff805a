/** One user's issuance history as a sequence ordered oldest first, and the
    three things the recorder does to such a sequence: reverse it (walking
    from the newest end), cut its stale prefix (expiry), and filter out
    stale records (reconstruction on load). */
module History {
  import opened Types

  /** Oldest record first. */
  type History = seq<Event>

  /** Creation times never decrease from the oldest end to the newest. */
  predicate Sorted(h: History)
    decreases |h|
  {
    |h| <= 1 || (h[0].createTime <= h[1].createTime && Sorted(h[1..]))
  }

  /** The history read from its newest end toward its oldest. */
  function Reverse<T>(s: seq<T>): (r: seq<T>)
    ensures |r| == |s|
    ensures forall i :: 0 <= i < |s| ==> r[i] == s[|s| - 1 - i]
  {
    if s == [] then [] else [s[|s| - 1]] + Reverse(s[..|s| - 1])
  }

  lemma ReverseReverse<T>(s: seq<T>)
    ensures Reverse(Reverse(s)) == s
  {
  }

  /** Number of records expiry removes from the oldest end: the length of
      the longest prefix whose records are all older than `cutoff`. */
  function StaleCount(h: History, cutoff: uint64): (k: nat)
    ensures k <= |h|
    ensures forall i :: 0 <= i < k ==> h[i].createTime < cutoff
    ensures k < |h| ==> h[k].createTime >= cutoff
  {
    if h == [] || h[0].createTime >= cutoff then 0 else 1 + StaleCount(h[1..], cutoff)
  }

  /** Expiry of one history: remove records from the oldest end while they
      are older than `cutoff`, stopping at the first that is not. */
  function ExpireHistory(h: History, cutoff: uint64): History {
    h[StaleCount(h, cutoff)..]
  }

  /** Every record is at or after `cutoff`. */
  ghost predicate AllFresh(h: History, cutoff: uint64) {
    forall j :: 0 <= j < |h| ==> h[j].createTime >= cutoff
  }

  /** A second expiry with the same cutoff removes nothing. */
  lemma ExpireHistoryIdempotent(h: History, cutoff: uint64)
    ensures StaleCount(ExpireHistory(h, cutoff), cutoff) == 0
    ensures ExpireHistory(ExpireHistory(h, cutoff), cutoff) == ExpireHistory(h, cutoff)
  {
  }

  /** In a sorted history every record is at least as recent as every
      earlier one. */
  lemma {:induction false} SortedAt(h: History, i: int, j: int)
    requires Sorted(h) && 0 <= i <= j < |h|
    ensures h[i].createTime <= h[j].createTime
    decreases j
  {
    if i < j {
      assert h[1..][j - 1] == h[j];
      if i == 0 {
        SortedAt(h[1..], 0, j - 1);
      } else {
        SortedAt(h[1..], i - 1, j - 1);
      }
    }
  }

  /** No record was created after clock reading `t`. */
  ghost predicate NotAfter(h: History, t: int) {
    forall j :: 0 <= j < |h| ==> h[j].createTime <= t
  }

  /** Appending a record no older than any in a sorted history keeps it
      sorted. */
  lemma {:induction false} SortedSnoc(h: History, e: Event)
    requires Sorted(h) && NotAfter(h, e.createTime as int)
    ensures Sorted(h + [e])
    decreases |h|
  {
    if |h| == 1 {
      assert h + [e] == [h[0], e];
      assert Sorted([e]);
    } else if |h| > 1 {
      assert (h + [e])[1..] == h[1..] + [e];
      SortedSnoc(h[1..], e);
    }
  }

  /** Every suffix of a sorted history is sorted. */
  lemma {:induction false} SortedSuffix(h: History, k: nat)
    requires Sorted(h) && k <= |h|
    ensures Sorted(h[k..])
    decreases k
  {
    if k > 0 && |h| > 1 {
      assert Sorted(h[1..]);
      assert h[k..] == h[1..][k - 1..];
      SortedSuffix(h[1..], k - 1);
    } else if k > 0 {
      assert |h[k..]| == 0;
    }
  }

  /** On a sorted history, the early stop leaves no stale record behind. */
  lemma {:induction false} ExpireSortedLeavesFresh(h: History, cutoff: uint64)
    requires Sorted(h)
    ensures AllFresh(ExpireHistory(h, cutoff), cutoff)
  {
    var k := StaleCount(h, cutoff);
    var r := ExpireHistory(h, cutoff);
    forall j | 0 <= j < |r|
      ensures r[j].createTime >= cutoff
    {
      assert r[j] == h[k + j];
      SortedAt(h, k, k + j);
    }
  }

  /** Reconstruction filter of one saved slice: keep, in slice order, the
      records created at or after `cutoff`. */
  function Fresh(s: seq<Event>, cutoff: uint64): (r: seq<Event>)
    ensures |r| <= |s|
    ensures AllFresh(r, cutoff)
  {
    if s == [] then []
    else if s[0].createTime < cutoff then Fresh(s[1..], cutoff)
    else [s[0]] + Fresh(s[1..], cutoff)
  }

  /** The filter keeps exactly the records of the slice that are at or after
      the cutoff. */
  lemma {:induction false} FreshMembers(s: seq<Event>, cutoff: uint64)
    ensures forall e :: e in Fresh(s, cutoff) <==> e in s && e.createTime >= cutoff
  {
    if s != [] {
      FreshMembers(s[1..], cutoff);
      assert s == [s[0]] + s[1..];
    }
  }

  lemma {:induction false} FreshAppend(a: seq<Event>, b: seq<Event>, cutoff: uint64)
    ensures Fresh(a + b, cutoff) == Fresh(a, cutoff) + Fresh(b, cutoff)
  {
    if a == [] {
      assert a + b == b;
    } else {
      assert (a + b)[1..] == a[1..] + b;
      FreshAppend(a[1..], b, cutoff);
    }
  }

  /** Filtering commutes with reversal. */
  lemma {:induction false} FreshReverse(s: seq<Event>, cutoff: uint64)
    ensures Fresh(Reverse(s), cutoff) == Reverse(Fresh(s, cutoff))
  {
    if s != [] {
      var init := s[..|s| - 1];
      var last := s[|s| - 1];
      assert s == init + [last];
      FreshAppend(init, [last], cutoff);
      FreshReverse(init, cutoff);
      FreshAppend([last], Reverse(init), cutoff);
      var fl := Fresh([last], cutoff);
      assert fl == (if last.createTime < cutoff then [] else [last]);
      ReverseAppend(Fresh(init, cutoff), fl);
      assert Reverse(fl) == fl;
    }
  }

  lemma ReverseAppend<T>(a: seq<T>, b: seq<T>)
    ensures Reverse(a + b) == Reverse(b) + Reverse(a)
  {
  }

  /** A history whose records are all recent enough survives the filter. */
  lemma {:induction false} FreshKeepsFresh(s: seq<Event>, cutoff: uint64)
    requires AllFresh(s, cutoff)
    ensures Fresh(s, cutoff) == s
  {
    if s != [] {
      assert s[0].createTime >= cutoff;
      FreshKeepsFresh(s[1..], cutoff);
    }
  }

  /** On a sorted history, cutting the stale prefix and filtering the stale
      records agree; this is what makes expiry's early stop complete. */
  lemma {:induction false} ExpireSortedIsFresh(h: History, cutoff: uint64)
    requires Sorted(h)
    ensures ExpireHistory(h, cutoff) == Fresh(h, cutoff)
  {
    if h != [] {
      if h[0].createTime < cutoff {
        assert Sorted(h[1..]);
        ExpireSortedIsFresh(h[1..], cutoff);
        assert ExpireHistory(h, cutoff) == ExpireHistory(h[1..], cutoff);
      } else {
        forall j | 0 <= j < |h|
          ensures h[j].createTime >= cutoff
        {
          SortedAt(h, 0, j);
        }
        FreshKeepsFresh(h, cutoff);
      }
    }
  }

  /** On an unsorted history the early stop can leave a stale record behind:
      expiry and the filter differ. */
  lemma ExpireUnsortedMissesStale()
    ensures var h := [Event(200, 60, true, false), Event(100, 60, true, false)];
            && !Sorted(h)
            && ExpireHistory(h, 150) == h
            && Fresh(h, 150) == [Event(200, 60, true, false)]
  {
  }
}
