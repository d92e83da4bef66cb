/**
 * The visit log: most recent first, never longer than LIMIT entries, with no
 * de-duplication of repeated visits.
 */
module History {
  import opened Types

  const LIMIT: nat := 50

  function Min(a: int, b: int): int {
    if a <= b then a else b
  }

  /** The first LIMIT entries of a log (the whole log when it is shorter). */
  function Cap(h: seq<HistoryItem>): (r: seq<HistoryItem>)
    ensures |r| == Min(LIMIT, |h|)
    ensures r == h[..|r|]
    ensures |h| <= LIMIT ==> r == h
  {
    h[..Min(LIMIT, |h|)]
  }

  /** Records a visit: the new entry goes to index 0 and only the 49 newest older entries stay. */
  function RecordVisit(h: seq<HistoryItem>, item: HistoryItem): (r: seq<HistoryItem>)
    ensures |r| == Min(LIMIT, |h| + 1)
    ensures r[0] == item
    ensures forall k :: 1 <= k < |r| ==> r[k] == h[k - 1]
  {
    [item] + h[..Min(LIMIT - 1, |h|)]
  }

  function Reverse<T>(xs: seq<T>): (r: seq<T>)
    ensures |r| == |xs|
    ensures forall i :: 0 <= i < |xs| ==> r[i] == xs[|xs| - 1 - i]
  {
    if |xs| == 0 then [] else Reverse(xs[1..]) + [xs[0]]
  }

  /** Records the visits of `items` in order, oldest first. */
  function RecordAll(h: seq<HistoryItem>, items: seq<HistoryItem>): seq<HistoryItem>
    decreases |items|
  {
    if |items| == 0 then h else RecordAll(RecordVisit(h, items[0]), items[1..])
  }

  lemma RecordVisitIsCap(h: seq<HistoryItem>, item: HistoryItem)
    ensures RecordVisit(h, item) == Cap([item] + h)
  {
  }

  lemma CapAbsorbs(a: seq<HistoryItem>, b: seq<HistoryItem>)
    ensures Cap(a + Cap(b)) == Cap(a + b)
  {
  }

  /**
   * However many visits are recorded, the log is the newest LIMIT entries of
   * "these visits newest first, then the old log".
   */
  lemma {:induction false} RecordAllIsCapOfReverse(h: seq<HistoryItem>, items: seq<HistoryItem>)
    requires |h| <= LIMIT
    ensures RecordAll(h, items) == Cap(Reverse(items) + h)
    decreases |items|
  {
    if |items| == 0 {
      assert Reverse(items) + h == h;
    } else {
      var h1 := RecordVisit(h, items[0]);
      RecordAllIsCapOfReverse(h1, items[1..]);
      RecordVisitIsCap(h, items[0]);
      CapAbsorbs(Reverse(items[1..]), [items[0]] + h);
      assert Reverse(items) == Reverse(items[1..]) + [items[0]];
      assert Reverse(items[1..]) + ([items[0]] + h) == Reverse(items) + h;
    }
  }

  /** The log stays within LIMIT entries and the k-th entry is the k-th newest visit. */
  lemma RecordAllWindow(h: seq<HistoryItem>, items: seq<HistoryItem>)
    requires |h| <= LIMIT
    ensures |RecordAll(h, items)| == Min(LIMIT, |items| + |h|)
    ensures forall k :: 0 <= k < Min(LIMIT, |items|) ==>
              RecordAll(h, items)[k] == items[|items| - 1 - k]
  {
    RecordAllIsCapOfReverse(h, items);
    var all := Reverse(items) + h;
    forall k | 0 <= k < Min(LIMIT, |items|)
      ensures RecordAll(h, items)[k] == items[|items| - 1 - k]
    {
      assert RecordAll(h, items)[k] == all[k] == Reverse(items)[k];
    }
  }

  /** Once LIMIT visits have been recorded, nothing of the older log survives. */
  lemma RecordAllFullWindow(h: seq<HistoryItem>, items: seq<HistoryItem>)
    requires |h| <= LIMIT
    requires |items| >= LIMIT
    ensures RecordAll(h, items) == Reverse(items[|items| - LIMIT..])
  {
    RecordAllWindow(h, items);
    var r := RecordAll(h, items);
    var w := Reverse(items[|items| - LIMIT..]);
    assert |r| == |w| == LIMIT;
    forall k | 0 <= k < LIMIT ensures r[k] == w[k] {
      assert w[k] == items[|items| - LIMIT..][LIMIT - 1 - k] == items[|items| - 1 - k];
    }
  }

  /** After LIMIT + 1 visits the first one is gone and the last one is at index 0. */
  lemma OldestVisitDropped(h: seq<HistoryItem>, items: seq<HistoryItem>)
    requires |h| <= LIMIT
    requires |items| == LIMIT + 1
    requires items[0] !in items[1..]
    ensures |RecordAll(h, items)| == LIMIT
    ensures items[0] !in RecordAll(h, items)
    ensures RecordAll(h, items)[0] == items[LIMIT]
  {
    RecordAllFullWindow(h, items);
  }

  /** Timestamps never increase from index 0 onwards. */
  predicate NewestFirst(h: seq<HistoryItem>) {
    forall i, j :: 0 <= i < j < |h| ==> h[i].timestamp >= h[j].timestamp
  }

  /** With a clock that does not run backwards, recording a visit keeps the log newest-first. */
  lemma RecordVisitKeepsOrder(h: seq<HistoryItem>, item: HistoryItem)
    requires NewestFirst(h)
    requires |h| > 0 ==> item.timestamp >= h[0].timestamp
    ensures NewestFirst(RecordVisit(h, item))
  {
  }
}
