/**
 What a caller observes of a layout pass, derived from its specification:
 the outcomes the test suite checks item by item, and the reuse and
 new-view counts it checks per differentiator.
 */
module ReuseProperties {

  import opened Optional
  import opened CalendarItems
  import opened SetCounting
  import opened ReuseSpec

  function Min(a: int, b: int): int
  {
    if a <= b then a else b
  }

  /** A handler call for an item of `d` that reports a previous backing item. */
  function ReportsReuse(d: Differentiator): HandlerCall -> bool
  {
    (c: HandlerCall) => c.item.differentiator == d && c.previousBackingItem.Some?
  }

  /** A handler call for an item of `d` that reports no previous backing item. */
  function ReportsNewView(d: Differentiator): HandlerCall -> bool
  {
    (c: HandlerCall) => c.item.differentiator == d && c.previousBackingItem.None?
  }

  function HasDifferentiator(d: Differentiator): VisibleItem -> bool
  {
    (x: VisibleItem) => x.differentiator == d
  }

  /** The handler calls for items of `d` that reuse a view, as the test suite
      counts them. */
  function ReuseCount(calls: seq<HandlerCall>, d: Differentiator): nat
  {
    CountWhere(calls, ReportsReuse(d))
  }

  /** The handler calls for items of `d` that get a new view. */
  function NewViewCount(calls: seq<HandlerCall>, d: Differentiator): nat
  {
    CountWhere(calls, ReportsNewView(d))
  }

  /** The visible items of `d`. */
  function ItemCount(items: seq<VisibleItem>, d: Differentiator): nat
  {
    CountWhere(items, HasDifferentiator(d))
  }

  /** The items of `d` that had a view before the pass. */
  ghost function PreviousItems(prev: map<VisibleItem, ItemView>, d: Differentiator): set<VisibleItem>
  {
    set x | x in prev && x.differentiator == d
  }

  // Outcomes of single items.

  /** A manager with no views reports no previous backing item for any item of
      its first pass, and creates a view per item. */
  lemma {:induction false} FirstPassCreatesEveryView(firstNew: ItemView, items: seq<VisibleItem>,
                                                     calls: seq<HandlerCall>)
    requires Resolves(map[], firstNew, items, calls)
    ensures forall i :: 0 <= i < |calls| ==> calls[i].previousBackingItem == None
    ensures CreationCount(calls) == |items|
  {
    assert forall i :: 0 <= i < |calls| ==> calls[i].previousBackingItem == None;
    CreationCountAll(calls);
  }

  lemma {:induction false} CreationCountAll(calls: seq<HandlerCall>)
    requires forall i :: 0 <= i < |calls| ==> calls[i].previousBackingItem == None
    ensures CreationCount(calls) == |calls|
  {
    if calls != [] {
      CreationCountAll(calls[..|calls| - 1]);
    }
  }

  lemma {:induction false} CreationCountNone(calls: seq<HandlerCall>)
    requires forall i :: 0 <= i < |calls| ==> calls[i].previousBackingItem.Some?
    ensures CreationCount(calls) == 0
  {
    if calls != [] {
      CreationCountNone(calls[..|calls| - 1]);
    }
  }

  /** A pass over exactly the items of the previous pass keeps every view where
      it was: each item reports itself as its previous backing item, and no
      view is created. */
  lemma IdenticalPassKeepsEveryView(prev: map<VisibleItem, ItemView>, firstNew: ItemView,
                                    items: seq<VisibleItem>, calls: seq<HandlerCall>)
    requires prev.Keys == Elems(items)
    requires Resolves(prev, firstNew, items, calls)
    ensures forall i :: 0 <= i < |calls| ==>
      calls[i].previousBackingItem == Some(items[i]) && calls[i].view == prev[items[i]]
    ensures CreationCount(calls) == 0
  {
    assert forall i :: 0 <= i < |calls| ==> calls[i].item in prev;
    CreationCountNone(calls);
  }

  /** A view never moves between differentiators: a previous backing item
      always has the differentiator of the item it is reported for, and had a
      view before the pass. */
  lemma ReuseKeepsDifferentiator(prev: map<VisibleItem, ItemView>, firstNew: ItemView,
                                 items: seq<VisibleItem>, calls: seq<HandlerCall>)
    requires Resolves(prev, firstNew, items, calls)
    ensures forall i, p :: 0 <= i < |calls| && calls[i].previousBackingItem == Some(p) ==>
      p in prev && p.differentiator == calls[i].item.differentiator && calls[i].view == prev[p]
  {
  }

  /** An item whose differentiator had no item in the previous pass gets a new
      view, whatever views of other differentiators were vacated. */
  lemma UnseenDifferentiatorGetsNewView(prev: map<VisibleItem, ItemView>, firstNew: ItemView,
                                        items: seq<VisibleItem>, calls: seq<HandlerCall>, d: Differentiator)
    requires Resolves(prev, firstNew, items, calls)
    requires PreviousItems(prev, d) == {}
    ensures forall i :: 0 <= i < |calls| && calls[i].item.differentiator == d ==>
      calls[i].previousBackingItem == None && firstNew <= calls[i].view
  {
    assert forall x :: x in prev ==> x.differentiator != d by {
      forall x | x in prev ensures x.differentiator != d {
        assert x !in PreviousItems(prev, d);
      }
    }
  }

  /** A pass creates a view for a differentiator only after every vacated view
      of it has been claimed: a call that reuses a vacated view of the same
      differentiator comes before the call that creates. */
  lemma ClaimPrecedesCreation(prev: map<VisibleItem, ItemView>, firstNew: ItemView,
                              items: seq<VisibleItem>, calls: seq<HandlerCall>, i: int, j: int, v: VisibleItem)
    requires Resolves(prev, firstNew, items, calls)
    requires 0 <= i < |calls| && 0 <= j < |calls|
    requires calls[i].previousBackingItem == None
    requires calls[j].previousBackingItem == Some(v) && v !in Elems(items)
    requires v.differentiator == calls[i].item.differentiator
    ensures j < i
  {
    assert calls[j].item !in prev;
    var k :| 0 <= k < i && calls[k].previousBackingItem == Some(v);
    assert calls[k].item !in prev;
    assert calls[k].view == prev[v] == calls[j].view;
  }

  /** For example, with one vacated view and two arriving items of its
      differentiator, creating a view for the first item and handing the
      vacated view to the second is not a correct pass. */
  lemma CreationWaitsForVacatedViews(v: VisibleItem, a1: VisibleItem, a2: VisibleItem)
    requires v.differentiator == a1.differentiator == a2.differentiator
    requires v != a1 && v != a2 && a1 != a2
    ensures !Resolves(map[v := 0], 1, [a1, a2], [HandlerCall(1, a1, None), HandlerCall(0, a2, Some(v))])
  {
    var calls := [HandlerCall(1, a1, None), HandlerCall(0, a2, Some(v))];
    var prev, requested := map[v := 0], Elems([a1, a2]);
    assert calls[0].previousBackingItem == None && v in prev && v !in requested
      && v.differentiator == calls[0].item.differentiator;
    assert !NoViewWasted(prev, requested, calls);
  }

  // Counts per differentiator.

  /** Every handler call for an item of `d` either reuses a view or creates one. */
  lemma {:induction false} CountsPartition(items: seq<VisibleItem>, calls: seq<HandlerCall>, d: Differentiator)
    requires |calls| == |items|
    requires forall i :: 0 <= i < |calls| ==> calls[i].item == items[i]
    ensures ReuseCount(calls, d) + NewViewCount(calls, d) == ItemCount(items, d)
  {
    if calls != [] {
      var n := |calls| - 1;
      CountsPartition(items[..n], calls[..n], d);
    }
  }

  // The items of `d` in a pass split into those that stay visible and those
  // that arrive; the items of `d` of the previous pass split into those that
  // stay visible and those vacated.

  ghost function Continued(prev: map<VisibleItem, ItemView>, items: seq<VisibleItem>, d: Differentiator): set<int>
  {
    set i | 0 <= i < |items| && items[i].differentiator == d && items[i] in prev
  }

  ghost function Arriving(prev: map<VisibleItem, ItemView>, items: seq<VisibleItem>, d: Differentiator): set<int>
  {
    set i | 0 <= i < |items| && items[i].differentiator == d && items[i] !in prev
  }

  /** The arriving items of `d` that reuse a vacated view. */
  ghost function Claimed(prev: map<VisibleItem, ItemView>, items: seq<VisibleItem>, calls: seq<HandlerCall>,
                         d: Differentiator): set<int>
  {
    set i | i in Arriving(prev, items, d) && i < |calls| && calls[i].previousBackingItem.Some?
  }

  ghost function Kept(prev: map<VisibleItem, ItemView>, items: seq<VisibleItem>, d: Differentiator): set<VisibleItem>
  {
    set x | x in PreviousItems(prev, d) && x in Elems(items)
  }

  ghost function Vacated(prev: map<VisibleItem, ItemView>, items: seq<VisibleItem>, d: Differentiator): set<VisibleItem>
  {
    set x | x in PreviousItems(prev, d) && x !in Elems(items)
  }

  /** As many items of `d` stay visible in the pass as were kept from the
      previous one. */
  lemma ContinuedCount(prev: map<VisibleItem, ItemView>, items: seq<VisibleItem>, d: Differentiator)
    requires Distinct(items)
    ensures |Continued(prev, items, d)| == |Kept(prev, items, d)|
  {
    var continued := Continued(prev, items, d);
    var f := i requires 0 <= i < |items| => items[i];
    InjectiveImageCard(continued, f);
    forall x | x in Kept(prev, items, d) ensures x in set i | i in continued :: f(i) {
      var i :| 0 <= i < |items| && items[i] == x;
      assert i in continued;
    }
    assert (set i | i in continued :: f(i)) == Kept(prev, items, d);
  }

  /** No vacated item is claimed twice. */
  lemma ClaimsDistinct(prev: map<VisibleItem, ItemView>, firstNew: ItemView,
                       items: seq<VisibleItem>, calls: seq<HandlerCall>, d: Differentiator)
    requires Resolves(prev, firstNew, items, calls)
    ensures forall i, j ::
      (i in Claimed(prev, items, calls, d) && j in Claimed(prev, items, calls, d) &&
       calls[i].previousBackingItem == calls[j].previousBackingItem) ==> i == j
  {
    forall i, j | i in Claimed(prev, items, calls, d) && j in Claimed(prev, items, calls, d) &&
      calls[i].previousBackingItem == calls[j].previousBackingItem
      ensures i == j
    {
      assert calls[i].view == prev[calls[i].previousBackingItem.value] == calls[j].view;
    }
  }

  /** Once an arriving item of `d` gets a new view, every vacated item of `d`
      has been claimed. */
  lemma NewViewMeansPoolDrained(prev: map<VisibleItem, ItemView>, firstNew: ItemView,
                                items: seq<VisibleItem>, calls: seq<HandlerCall>, d: Differentiator, k: int)
    requires Resolves(prev, firstNew, items, calls)
    requires k in Arriving(prev, items, d) && k !in Claimed(prev, items, calls, d)
    ensures forall v :: v in Vacated(prev, items, d) ==>
      exists j :: j in Claimed(prev, items, calls, d) && calls[j].previousBackingItem == Some(v)
  {
    forall v | v in Vacated(prev, items, d)
      ensures exists j :: j in Claimed(prev, items, calls, d) && calls[j].previousBackingItem == Some(v)
    {
      assert calls[k].previousBackingItem == None;
      var j :| 0 <= j < |calls| && calls[j].previousBackingItem == Some(v);
      assert calls[j].item !in prev;
      assert j in Claimed(prev, items, calls, d);
    }
  }

  /** The vacated items that arriving items of `d` claim. */
  ghost function Taken(prev: map<VisibleItem, ItemView>, items: seq<VisibleItem>, calls: seq<HandlerCall>,
                       d: Differentiator): set<VisibleItem>
  {
    set i | i in Claimed(prev, items, calls, d) && 0 <= i < |calls| && calls[i].previousBackingItem.Some? ::
      calls[i].previousBackingItem.value
  }

  /** Every claimed item was vacated, and each is claimed by one item. */
  lemma TakenCount(prev: map<VisibleItem, ItemView>, firstNew: ItemView,
                   items: seq<VisibleItem>, calls: seq<HandlerCall>, d: Differentiator)
    requires Resolves(prev, firstNew, items, calls)
    ensures Taken(prev, items, calls, d) <= Vacated(prev, items, d)
    ensures |Taken(prev, items, calls, d)| == |Claimed(prev, items, calls, d)|
  {
    var claimed := Claimed(prev, items, calls, d);
    var f := i requires 0 <= i < |calls| && calls[i].previousBackingItem.Some? => calls[i].previousBackingItem.value;
    ClaimsDistinct(prev, firstNew, items, calls, d);
    InjectiveImageCard(claimed, f);
    assert (set i | i in claimed :: f(i)) == Taken(prev, items, calls, d);
  }

  /** Claiming from a pool of `vacated` for the `arriving` items, one item per
      vacated view and until either runs out, claims the smaller number. */
  lemma ClaimArithmetic<T>(claimed: set<int>, arriving: set<int>, taken: set<T>, vacated: set<T>)
    requires claimed <= arriving && taken <= vacated && |taken| == |claimed|
    requires claimed != arriving ==> vacated <= taken
    ensures |claimed| == Min(|vacated|, |arriving|)
  {
    SubsetCard(taken, vacated);
    SubsetCard(claimed, arriving);
    if claimed != arriving {
      SubsetCard(vacated, taken);
    }
  }

  /** The vacated views of `d` a pass reuses are as many as the smaller of the
      number vacated and the number of items of `d` arriving in the pass. */
  lemma ClaimedCount(prev: map<VisibleItem, ItemView>, firstNew: ItemView,
                     items: seq<VisibleItem>, calls: seq<HandlerCall>, d: Differentiator)
    requires Resolves(prev, firstNew, items, calls)
    ensures |Claimed(prev, items, calls, d)| == Min(|Vacated(prev, items, d)|, |Arriving(prev, items, d)|)
  {
    var arriving := Arriving(prev, items, d);
    var claimed := Claimed(prev, items, calls, d);
    TakenCount(prev, firstNew, items, calls, d);
    if claimed != arriving {
      assert claimed <= arriving;
      if forall k :: k in arriving ==> k in claimed { assert false; }
      var k :| k in arriving && k !in claimed;
      NewViewMeansPoolDrained(prev, firstNew, items, calls, d, k);
    }
    ClaimArithmetic(claimed, arriving, Taken(prev, items, calls, d), Vacated(prev, items, d));
  }

  /** The items of `d` are those that stay visible and those that arrive. */
  lemma ItemsSplit(prev: map<VisibleItem, ItemView>, items: seq<VisibleItem>, d: Differentiator)
    ensures ItemCount(items, d) == |Continued(prev, items, d)| + |Arriving(prev, items, d)|
  {
    CountWhereIsCard(items, HasDifferentiator(d));
    assert IndicesWhere(items, HasDifferentiator(d)) == Continued(prev, items, d) + Arriving(prev, items, d);
    assert Continued(prev, items, d) * Arriving(prev, items, d) == {};
  }

  /** The reusing calls for `d` are those of the items that stay visible and
      those of the arriving items that claim a vacated view. */
  lemma ReusesSplit(prev: map<VisibleItem, ItemView>, firstNew: ItemView,
                    items: seq<VisibleItem>, calls: seq<HandlerCall>, d: Differentiator)
    requires Resolves(prev, firstNew, items, calls)
    ensures ReuseCount(calls, d) == |Continued(prev, items, d)| + |Claimed(prev, items, calls, d)|
  {
    CountWhereIsCard(calls, ReportsReuse(d));
    assert IndicesWhere(calls, ReportsReuse(d)) == Continued(prev, items, d) + Claimed(prev, items, calls, d);
    assert Continued(prev, items, d) * Claimed(prev, items, calls, d) == {};
  }

  /** The items of `d` of the previous pass are those kept and those vacated. */
  lemma PreviousSplit(prev: map<VisibleItem, ItemView>, items: seq<VisibleItem>, d: Differentiator)
    ensures |PreviousItems(prev, d)| == |Kept(prev, items, d)| + |Vacated(prev, items, d)|
  {
    assert PreviousItems(prev, d) == Kept(prev, items, d) + Vacated(prev, items, d);
    assert Kept(prev, items, d) * Vacated(prev, items, d) == {};
  }

  /** For each differentiator, the number of items reported with a previous
      backing item is the smaller of the number of its items in the previous
      pass and in this one. */
  lemma ReuseCountIsMin(prev: map<VisibleItem, ItemView>, firstNew: ItemView,
                        items: seq<VisibleItem>, calls: seq<HandlerCall>, d: Differentiator)
    requires Distinct(items)
    requires Resolves(prev, firstNew, items, calls)
    ensures ReuseCount(calls, d) == Min(|PreviousItems(prev, d)|, ItemCount(items, d))
  {
    ContinuedCount(prev, items, d);
    ClaimedCount(prev, firstNew, items, calls, d);
    ItemsSplit(prev, items, d);
    ReusesSplit(prev, firstNew, items, calls, d);
    PreviousSplit(prev, items, d);
  }

  /** For each differentiator, the items that get a new view are those beyond
      the number of its items in the previous pass. */
  lemma NewViewCountIsExcess(prev: map<VisibleItem, ItemView>, firstNew: ItemView,
                             items: seq<VisibleItem>, calls: seq<HandlerCall>, d: Differentiator)
    requires Distinct(items)
    requires Resolves(prev, firstNew, items, calls)
    ensures NewViewCount(calls, d) == ItemCount(items, d) - Min(|PreviousItems(prev, d)|, ItemCount(items, d))
  {
    ReuseCountIsMin(prev, firstNew, items, calls, d);
    CountsPartition(items, calls, d);
  }

  /** After a pass over `previous`, the items of `d` with a view are those of
      `previous`. */
  lemma PreviousItemsCount(prev: map<VisibleItem, ItemView>, previous: seq<VisibleItem>, d: Differentiator)
    requires Distinct(previous) && prev.Keys == Elems(previous)
    ensures |PreviousItems(prev, d)| == ItemCount(previous, d)
  {
    var indices := IndicesWhere(previous, HasDifferentiator(d));
    CountWhereIsCard(previous, HasDifferentiator(d));
    var f := i requires 0 <= i < |previous| => previous[i];
    InjectiveImageCard(indices, f);
    forall x | x in PreviousItems(prev, d) ensures x in set i | i in indices :: f(i) {
      var i :| 0 <= i < |previous| && previous[i] == x;
      assert i in indices;
    }
    assert (set i | i in indices :: f(i)) == PreviousItems(prev, d);
  }

  /** When a differentiator has no more items than in the previous pass, each
      of its items reports a previous backing item. */
  lemma ReusedWithoutGrowth(prev: map<VisibleItem, ItemView>, firstNew: ItemView,
                            items: seq<VisibleItem>, calls: seq<HandlerCall>, d: Differentiator)
    requires Distinct(items)
    requires Resolves(prev, firstNew, items, calls)
    requires ItemCount(items, d) <= |PreviousItems(prev, d)|
    ensures forall i :: 0 <= i < |calls| && calls[i].item.differentiator == d ==> calls[i].previousBackingItem.Some?
  {
    NewViewCountIsExcess(prev, firstNew, items, calls, d);
    CountWhereZero(calls, ReportsNewView(d));
    forall i | 0 <= i < |calls| && calls[i].item.differentiator == d ensures calls[i].previousBackingItem.Some? {
      assert !ReportsNewView(d)(calls[i]);
    }
  }

  /** When no differentiator has more items than in the previous pass, every
      item reports a previous backing item. */
  lemma EveryItemReusedWithoutGrowth(prev: map<VisibleItem, ItemView>, firstNew: ItemView,
                                     items: seq<VisibleItem>, calls: seq<HandlerCall>)
    requires Distinct(items)
    requires Resolves(prev, firstNew, items, calls)
    requires forall d :: ItemCount(items, d) <= |PreviousItems(prev, d)|
    ensures forall i :: 0 <= i < |calls| ==> calls[i].previousBackingItem.Some?
  {
    forall i | 0 <= i < |calls| ensures calls[i].previousBackingItem.Some? {
      ReusedWithoutGrowth(prev, firstNew, items, calls, calls[i].item.differentiator);
    }
  }
}
