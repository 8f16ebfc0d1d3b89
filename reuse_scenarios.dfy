/**
 The scenarios of the reuse manager's test suite, each on a fresh manager:
 the items of every pass, the passes in order, and what the suite asserts
 about the handler calls, proved from the manager's contract.
 */
module ReuseScenarios {

  import opened Optional
  import opened CalendarItems
  import opened SetCounting
  import opened ReuseSpec
  import opened ItemViewReuse
  import opened ReuseProperties

  /** A month header backed by a mock item with the given reuse identifier. */
  function Header(reuseIdentifier: string, month: nat): VisibleItem
  {
    VisibleItem(MockDifferentiator(reuseIdentifier), MonthHeader(month))
  }

  /** The first day of a month, backed by a mock item with the given reuse
      identifier. */
  function FirstDay(reuseIdentifier: string, month: nat): VisibleItem
  {
    VisibleItem(MockDifferentiator(reuseIdentifier), DayItem(month, 1))
  }

  const Type0: Differentiator := MockDifferentiator("item_type_0")
  const Type1: Differentiator := MockDifferentiator("item_type_1")
  const Type2: Differentiator := MockDifferentiator("item_type_2")
  const Type3: Differentiator := MockDifferentiator("item_type_3")
  const Type4: Differentiator := MockDifferentiator("item_type_4")
  const Type5: Differentiator := MockDifferentiator("item_type_5")

  /** Two month headers and two first days: the initial items of most scenarios. */
  const TwoMonths: seq<VisibleItem> :=
    [Header("item_type_0", 1), Header("item_type_0", 2),
     FirstDay("item_type_1", 1), FirstDay("item_type_1", 2)]

  /** The items of `TwoMonths` one month later. */
  const NextMonths: seq<VisibleItem> :=
    [Header("item_type_0", 2), Header("item_type_0", 3),
     FirstDay("item_type_1", 3), FirstDay("item_type_1", 4)]

  const SomeInitial: seq<VisibleItem> :=
    [Header("item_type_0", 1), Header("item_type_0", 2),
     FirstDay("item_type_1", 1), FirstDay("item_type_1", 2),
     FirstDay("item_type_2", 2), FirstDay("item_type_3", 2)]

  const SomeSubsequent: seq<VisibleItem> :=
    [FirstDay("item_type_1", 5), FirstDay("item_type_3", 5),
     Header("item_type_4", 4), Header("item_type_5", 5)]

  const DepletionInitial: seq<VisibleItem> :=
    [Header("item_type_0", 1), Header("item_type_0", 2),
     FirstDay("item_type_1", 1), FirstDay("item_type_1", 2), FirstDay("item_type_1", 3)]

  const DepletionSubsequent: seq<VisibleItem> :=
    [Header("item_type_0", 3), Header("item_type_0", 4), Header("item_type_0", 5),
     FirstDay("item_type_1", 3), FirstDay("item_type_1", 4), FirstDay("item_type_1", 5),
     FirstDay("item_type_1", 6), FirstDay("item_type_1", 7),
     FirstDay("item_type_2", 7)]

  // The number of items of each differentiator in each list, counted one
  // item at a time.

  lemma TwoMonthsCounts(d: Differentiator)
    ensures ItemCount(TwoMonths, d) == if d == Type0 || d == Type1 then 2 else 0
  {
    var s, p := TwoMonths, HasDifferentiator(d);
    for k := 0 to |s|
      invariant CountWhere(s[..k], p) ==
        (if d == Type0 then Min(k, 2) else 0) + (if d == Type1 && k > 2 then k - 2 else 0)
    {
      CountWherePrefix(s, p, k);
    }
    assert s[..|s|] == s;
  }

  lemma NextMonthsCounts(d: Differentiator)
    ensures ItemCount(NextMonths, d) == if d == Type0 || d == Type1 then 2 else 0
  {
    var s, p := NextMonths, HasDifferentiator(d);
    for k := 0 to |s|
      invariant CountWhere(s[..k], p) ==
        (if d == Type0 then Min(k, 2) else 0) + (if d == Type1 && k > 2 then k - 2 else 0)
    {
      CountWherePrefix(s, p, k);
    }
    assert s[..|s|] == s;
  }

  lemma SomeInitialCounts(d: Differentiator)
    ensures ItemCount(SomeInitial, d) ==
      if d == Type0 || d == Type1 then 2 else if d == Type2 || d == Type3 then 1 else 0
  {
    var s, p := SomeInitial, HasDifferentiator(d);
    for k := 0 to |s|
      invariant CountWhere(s[..k], p) ==
        (if d == Type0 then Min(k, 2) else 0) + (if d == Type1 && k > 2 then Min(k - 2, 2) else 0)
        + (if d == Type2 && k > 4 then 1 else 0) + (if d == Type3 && k > 5 then 1 else 0)
    {
      CountWherePrefix(s, p, k);
    }
    assert s[..|s|] == s;
  }

  lemma SomeSubsequentCounts(d: Differentiator)
    ensures ItemCount(SomeSubsequent, d) == if d in {Type1, Type3, Type4, Type5} then 1 else 0
  {
    var s, p := SomeSubsequent, HasDifferentiator(d);
    for k := 0 to |s|
      invariant CountWhere(s[..k], p) ==
        (if d == Type1 && k > 0 then 1 else 0) + (if d == Type3 && k > 1 then 1 else 0)
        + (if d == Type4 && k > 2 then 1 else 0) + (if d == Type5 && k > 3 then 1 else 0)
    {
      CountWherePrefix(s, p, k);
    }
    assert s[..|s|] == s;
  }

  /** A fresh manager reports no previous backing item for any item. */
  method InitialViewCreationWithNoReuse() returns (calls: seq<HandlerCall>)
    ensures |calls| == |TwoMonths|
    ensures forall i :: 0 <= i < |calls| ==> calls[i].previousBackingItem == None
  {
    var manager := new ItemViewReuseManager();
    calls := manager.ViewsForVisibleItems(TwoMonths);
    FirstPassCreatesEveryView(0, TwoMonths, calls);
  }

  /** A second pass over the same items reports every item as its own previous
      backing item. */
  method ReusingIdenticalViews() returns (calls: seq<HandlerCall>)
    ensures |calls| == |TwoMonths|
    ensures forall i :: 0 <= i < |calls| ==> calls[i].previousBackingItem == Some(calls[i].item)
  {
    var manager := new ItemViewReuseManager();
    var _ := manager.ViewsForVisibleItems(TwoMonths);
    ghost var prev, firstNew := manager.viewsForItems, manager.nextView;
    calls := manager.ViewsForVisibleItems(TwoMonths);
    IdenticalPassKeepsEveryView(prev, firstNew, TwoMonths, calls);
  }

  /** When no differentiator gains items, every item of the second pass reports
      a previous backing item of its own differentiator. */
  method ReusingAllViews() returns (calls: seq<HandlerCall>)
    ensures |calls| == |NextMonths|
    ensures forall i :: 0 <= i < |calls| ==>
      calls[i].previousBackingItem.Some? &&
      calls[i].previousBackingItem.value.differentiator == calls[i].item.differentiator
  {
    var manager := new ItemViewReuseManager();
    var _ := manager.ViewsForVisibleItems(TwoMonths);
    ghost var prev, firstNew := manager.viewsForItems, manager.nextView;
    calls := manager.ViewsForVisibleItems(NextMonths);
    forall d ensures ItemCount(NextMonths, d) <= |PreviousItems(prev, d)| {
      PreviousItemsCount(prev, TwoMonths, d);
      TwoMonthsCounts(d);
      NextMonthsCounts(d);
    }
    EveryItemReusedWithoutGrowth(prev, firstNew, NextMonths, calls);
    ReuseKeepsDifferentiator(prev, firstNew, NextMonths, calls);
  }

  /** Items whose differentiator had views reuse one of them; items of a
      differentiator not seen before get a new view. */
  method ReusingSomeViews() returns (calls: seq<HandlerCall>)
    ensures |calls| == |SomeSubsequent|
    ensures forall i :: 0 <= i < |calls| ==> ReusedAsExpected(calls[i])
  {
    var manager := new ItemViewReuseManager();
    var _ := manager.ViewsForVisibleItems(SomeInitial);
    ghost var prev, firstNew := manager.viewsForItems, manager.nextView;
    calls := manager.ViewsForVisibleItems(SomeSubsequent);
    SomeViewsOutcome(prev, firstNew, calls);
  }

  /** What the partial-reuse test asserts of each handler call: items of the
      differentiators that had views report a previous backing item of their
      own differentiator, the others report none. */
  predicate ReusedAsExpected(call: HandlerCall)
  {
    var d := call.item.differentiator;
    if d == Type1 || d == Type3 then
      call.previousBackingItem.Some? && call.previousBackingItem.value.differentiator == d
    else
      call.previousBackingItem == None
  }

  lemma SomeViewsOutcome(prev: map<VisibleItem, ItemView>, firstNew: ItemView, calls: seq<HandlerCall>)
    requires Distinct(SomeInitial) && prev.Keys == Elems(SomeInitial)
    requires Distinct(SomeSubsequent)
    requires Resolves(prev, firstNew, SomeSubsequent, calls)
    ensures forall i :: 0 <= i < |calls| ==> ReusedAsExpected(calls[i])
  {
    ReuseKeepsDifferentiator(prev, firstNew, SomeSubsequent, calls);
    SomeViewsReused(prev, firstNew, calls, Type1);
    SomeViewsReused(prev, firstNew, calls, Type3);
    SomeViewsCreated(prev, firstNew, calls, Type4);
    SomeViewsCreated(prev, firstNew, calls, Type5);
    forall i | 0 <= i < |calls| ensures ReusedAsExpected(calls[i]) {
      assert calls[i].item == SomeSubsequent[i];
    }
  }

  lemma SomeViewsReused(prev: map<VisibleItem, ItemView>, firstNew: ItemView, calls: seq<HandlerCall>,
                        d: Differentiator)
    requires Distinct(SomeInitial) && prev.Keys == Elems(SomeInitial)
    requires Distinct(SomeSubsequent)
    requires Resolves(prev, firstNew, SomeSubsequent, calls)
    requires d == Type1 || d == Type3
    ensures forall i :: 0 <= i < |calls| && calls[i].item.differentiator == d ==>
      calls[i].previousBackingItem.Some?
  {
    SomeInitialCounts(d);
    SomeSubsequentCounts(d);
    PreviousItemsCount(prev, SomeInitial, d);
    ReusedWithoutGrowth(prev, firstNew, SomeSubsequent, calls, d);
  }

  lemma SomeViewsCreated(prev: map<VisibleItem, ItemView>, firstNew: ItemView, calls: seq<HandlerCall>,
                         d: Differentiator)
    requires Distinct(SomeInitial) && prev.Keys == Elems(SomeInitial)
    requires Resolves(prev, firstNew, SomeSubsequent, calls)
    requires d == Type4 || d == Type5
    ensures forall i :: 0 <= i < |calls| && calls[i].item.differentiator == d ==>
      calls[i].previousBackingItem == None
  {
    SomeInitialCounts(d);
    PreviousItemsCount(prev, SomeInitial, d);
    UnseenDifferentiatorGetsNewView(prev, firstNew, SomeSubsequent, calls, d);
  }

  /** Tallies the handler calls per differentiator, as the depletion test's
      view handler does: a differentiator is a key only once one of its calls
      has been counted. */
  method TallyCalls(calls: seq<HandlerCall>)
    returns (reuseCounts: map<Differentiator, nat>, newViewCounts: map<Differentiator, nat>)
    ensures forall d :: d in reuseCounts <==> ReuseCount(calls, d) > 0
    ensures forall d :: d in reuseCounts ==> reuseCounts[d] == ReuseCount(calls, d)
    ensures forall d :: d in newViewCounts <==> NewViewCount(calls, d) > 0
    ensures forall d :: d in newViewCounts ==> newViewCounts[d] == NewViewCount(calls, d)
  {
    reuseCounts, newViewCounts := map[], map[];
    var i := 0;
    while i < |calls|
      invariant 0 <= i <= |calls|
      invariant forall d :: d in reuseCounts <==> ReuseCount(calls[..i], d) > 0
      invariant forall d :: d in reuseCounts ==> reuseCounts[d] == ReuseCount(calls[..i], d)
      invariant forall d :: d in newViewCounts <==> NewViewCount(calls[..i], d) > 0
      invariant forall d :: d in newViewCounts ==> newViewCounts[d] == NewViewCount(calls[..i], d)
    {
      var d := calls[i].item.differentiator;
      assert calls[..i + 1][..i] == calls[..i];
      if calls[i].previousBackingItem != None {
        var reuseCount := (if d in reuseCounts then reuseCounts[d] else 0) + 1;
        reuseCounts := reuseCounts[d := reuseCount];
      } else {
        var newViewCount := (if d in newViewCounts then newViewCounts[d] else 0) + 1;
        newViewCounts := newViewCounts[d := newViewCount];
      }
      i := i + 1;
    }
    assert calls[..i] == calls;
  }

  /** The depletion scenario's item counts per differentiator. */
  lemma DepletionInitialCounts(d: Differentiator)
    ensures ItemCount(DepletionInitial, d) == if d == Type0 then 2 else if d == Type1 then 3 else 0
  {
    var s, p := DepletionInitial, HasDifferentiator(d);
    for k := 0 to |s|
      invariant CountWhere(s[..k], p) ==
        (if d == Type0 then Min(k, 2) else 0) + (if d == Type1 && k > 2 then k - 2 else 0)
    {
      CountWherePrefix(s, p, k);
    }
    assert s[..|s|] == s;
  }

  lemma DepletionSubsequentCounts(d: Differentiator)
    ensures ItemCount(DepletionSubsequent, d) ==
      if d == Type0 then 3 else if d == Type1 then 5 else if d == Type2 then 1 else 0
  {
    var s, p := DepletionSubsequent, HasDifferentiator(d);
    for k := 0 to |s|
      invariant CountWhere(s[..k], p) ==
        (if d == Type0 then Min(k, 3) else 0) + (if d == Type1 && k > 3 then Min(k - 3, 5) else 0)
        + (if d == Type2 && k > 8 then 1 else 0)
    {
      CountWherePrefix(s, p, k);
    }
    assert s[..|s|] == s;
  }

  /** A tally holding exactly the positive counts equals the map of the
      expected positive counts. */
  lemma TallyEquals(tally: map<Differentiator, nat>, count: Differentiator -> nat,
                    expected: map<Differentiator, nat>)
    requires forall d :: d in tally <==> count(d) > 0
    requires forall d :: d in tally ==> tally[d] == count(d)
    requires forall d :: count(d) == if d in expected then expected[d] else 0
    requires forall d :: d in expected ==> expected[d] > 0
    ensures tally == expected
  {
    assert tally.Keys == expected.Keys;
  }

  /** Once the vacated views of a differentiator run out, its remaining items
      get new views: the per-differentiator tallies the test suite expects. */
  method DepletingAvailableReusableViews()
    returns (reuseCounts: map<Differentiator, nat>, newViewCounts: map<Differentiator, nat>)
    ensures reuseCounts == map[Type0 := 2, Type1 := 3]
    ensures newViewCounts == map[Type0 := 1, Type1 := 2, Type2 := 1]
  {
    DepletionItemsDistinct();
    var manager := new ItemViewReuseManager();
    var _ := manager.ViewsForVisibleItems(DepletionInitial);
    ghost var prev, firstNew := manager.viewsForItems, manager.nextView;
    var calls := manager.ViewsForVisibleItems(DepletionSubsequent);
    reuseCounts, newViewCounts := TallyCalls(calls);
    DepletionTallies(prev, firstNew, calls, reuseCounts, newViewCounts);
  }

  lemma DepletionItemsDistinct()
    ensures Distinct(DepletionInitial) && Distinct(DepletionSubsequent)
  {
  }

  lemma DepletionTallies(prev: map<VisibleItem, ItemView>, firstNew: ItemView, calls: seq<HandlerCall>,
                         reuseCounts: map<Differentiator, nat>, newViewCounts: map<Differentiator, nat>)
    requires Distinct(DepletionInitial) && prev.Keys == Elems(DepletionInitial)
    requires Distinct(DepletionSubsequent)
    requires Resolves(prev, firstNew, DepletionSubsequent, calls)
    requires forall d :: d in reuseCounts <==> ReuseCount(calls, d) > 0
    requires forall d :: d in reuseCounts ==> reuseCounts[d] == ReuseCount(calls, d)
    requires forall d :: d in newViewCounts <==> NewViewCount(calls, d) > 0
    requires forall d :: d in newViewCounts ==> newViewCounts[d] == NewViewCount(calls, d)
    ensures reuseCounts == map[Type0 := 2, Type1 := 3]
    ensures newViewCounts == map[Type0 := 1, Type1 := 2, Type2 := 1]
  {
    var expectedReuses := map[Type0 := 2, Type1 := 3];
    var expectedNewViews := map[Type0 := 1, Type1 := 2, Type2 := 1];
    forall d
      ensures ReuseCount(calls, d) == if d in expectedReuses then expectedReuses[d] else 0
      ensures NewViewCount(calls, d) == if d in expectedNewViews then expectedNewViews[d] else 0
    {
      DepletionOutcome(prev, firstNew, calls, d);
    }
    TallyEquals(reuseCounts, d => ReuseCount(calls, d), expectedReuses);
    TallyEquals(newViewCounts, d => NewViewCount(calls, d), expectedNewViews);
  }

  lemma DepletionOutcome(prev: map<VisibleItem, ItemView>, firstNew: ItemView, calls: seq<HandlerCall>,
                         d: Differentiator)
    requires Distinct(DepletionInitial) && prev.Keys == Elems(DepletionInitial)
    requires Distinct(DepletionSubsequent)
    requires Resolves(prev, firstNew, DepletionSubsequent, calls)
    ensures ReuseCount(calls, d) == (if d == Type0 then 2 else if d == Type1 then 3 else 0)
    ensures NewViewCount(calls, d) == (if d == Type0 then 1 else if d == Type1 then 2 else if d == Type2 then 1 else 0)
  {
    DepletionInitialCounts(d);
    DepletionSubsequentCounts(d);
    PreviousItemsCount(prev, DepletionInitial, d);
    ReuseCountIsMin(prev, firstNew, DepletionSubsequent, calls, d);
    NewViewCountIsExcess(prev, firstNew, DepletionSubsequent, calls, d);
  }
}
