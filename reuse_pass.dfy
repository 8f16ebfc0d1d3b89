/**
 The invariant of a layout pass part-way through, and the lemmas showing that
 each way of answering an item keeps it.
 */
module ReusePass {

  import opened Optional
  import opened CalendarItems
  import opened ReuseSpec

  /** The calls made so far answer a prefix of `items`, each correctly and each
      with its own view. */
  ghost predicate CallsSoFar(prev: map<VisibleItem, ItemView>, firstNew: ItemView, next: ItemView,
                             items: seq<VisibleItem>, calls: seq<HandlerCall>)
  {
    |calls| <= |items| && firstNew <= next
    && (forall j :: 0 <= j < |calls| ==> calls[j].item == items[j])
    && (forall j :: 0 <= j < |calls| ==> HandledCorrectly(prev, firstNew, Elems(items), calls[j]))
    && (forall j :: 0 <= j < |calls| ==> calls[j].view < next)
    && DistinctViews(calls)
  }

  /** The pool holds exactly the vacated items no call has claimed yet,
      `claimedBy` names the call that claimed each claimed item, and every
      vacated item of a differentiator for which a view was created had been
      claimed before that call. */
  ghost predicate PoolSoFar(prev: map<VisibleItem, ItemView>, items: seq<VisibleItem>, calls: seq<HandlerCall>,
                            pool: ReusePool, claimedBy: map<VisibleItem, int>)
  {
    var vacated := prev.Keys - Elems(items);
    PoolHolds(pool, vacated)
    && (forall v :: v in vacated ==> (v in Available(pool, v.differentiator) <==> v !in claimedBy))
    && (forall v :: v in claimedBy ==>
          0 <= claimedBy[v] < |calls| && calls[claimedBy[v]].previousBackingItem == Some(v))
    && (forall j :: 0 <= j < |calls| && calls[j].item !in prev && calls[j].previousBackingItem.Some? ==>
          calls[j].previousBackingItem.value in claimedBy)
    && (forall j, v ::
          (0 <= j < |calls| && calls[j].previousBackingItem == None &&
           v in vacated && v.differentiator == calls[j].item.differentiator) ==>
          v in claimedBy && claimedBy[v] < j)
  }

  /** The new bindings so far map each answered item to the view of its call. */
  ghost predicate BindingsSoFar(items: seq<VisibleItem>, calls: seq<HandlerCall>, views: map<VisibleItem, ItemView>)
    requires |calls| <= |items|
  {
    views.Keys == Elems(items[..|calls|])
    && forall j :: 0 <= j < |calls| ==> calls[j].item in views && views[calls[j].item] == calls[j].view
  }

  /** Binding the next item to the view of its call extends the bindings. */
  lemma BindingsStep(items: seq<VisibleItem>, calls: seq<HandlerCall>, views: map<VisibleItem, ItemView>,
                     call: HandlerCall)
    requires |calls| < |items| && BindingsSoFar(items, calls, views)
    requires call.item == items[|calls|]
    requires forall j :: 0 <= j < |calls| ==> calls[j].item != call.item
    ensures BindingsSoFar(items, calls + [call], views[call.item := call.view])
  {
  }

  /** Before the first call, the pool holds every vacated item. */
  lemma PassStart(prev: map<VisibleItem, ItemView>, firstNew: ItemView, items: seq<VisibleItem>, pool: ReusePool)
    requires PoolHolds(pool, prev.Keys - Elems(items))
    requires forall v :: v in prev.Keys - Elems(items) ==> v in Available(pool, v.differentiator)
    ensures CallsSoFar(prev, firstNew, firstNew, items, [])
    ensures PoolSoFar(prev, items, [], pool, map[])
  {
  }

  /** An item that was visible in the last pass keeps its view. */
  lemma ContinueStep(prev: map<VisibleItem, ItemView>, firstNew: ItemView, next: ItemView,
                     items: seq<VisibleItem>, calls: seq<HandlerCall>,
                     pool: ReusePool, claimedBy: map<VisibleItem, int>)
    requires ValidBindings(prev, firstNew) && Distinct(items)
    requires CallsSoFar(prev, firstNew, next, items, calls)
    requires PoolSoFar(prev, items, calls, pool, claimedBy)
    requires |calls| < |items| && items[|calls|] in prev
    ensures var item := items[|calls|];
      var calls' := calls + [HandlerCall(prev[item], item, Some(item))];
      CallsSoFar(prev, firstNew, next, items, calls') && PoolSoFar(prev, items, calls', pool, claimedBy)
  {
  }

  /** An item new to this pass takes the first pooled view of its differentiator. */
  lemma ClaimStep(prev: map<VisibleItem, ItemView>, firstNew: ItemView, next: ItemView,
                  items: seq<VisibleItem>, calls: seq<HandlerCall>,
                  pool: ReusePool, claimedBy: map<VisibleItem, int>)
    requires ValidBindings(prev, firstNew) && Distinct(items)
    requires CallsSoFar(prev, firstNew, next, items, calls)
    requires PoolSoFar(prev, items, calls, pool, claimedBy)
    requires |calls| < |items| && items[|calls|] !in prev
    requires Available(pool, items[|calls|].differentiator) != []
    ensures var item := items[|calls|];
      var d := item.differentiator;
      pool[d][0] in prev
    ensures var item := items[|calls|];
      var d := item.differentiator;
      var p := pool[d][0];
      var calls' := calls + [HandlerCall(prev[p], item, Some(p))];
      CallsSoFar(prev, firstNew, next, items, calls')
      && PoolSoFar(prev, items, calls', pool[d := pool[d][1..]], claimedBy[p := |calls|])
  {
    ClaimedViewIsFree(prev, firstNew, next, items, calls, pool, claimedBy);
    ClaimLeavesRestPooled(prev, firstNew, next, items, calls, pool, claimedBy);
  }

  /** The first pooled view of a differentiator backs a vacated item, and no
      call so far has it. */
  lemma ClaimedViewIsFree(prev: map<VisibleItem, ItemView>, firstNew: ItemView, next: ItemView,
                          items: seq<VisibleItem>, calls: seq<HandlerCall>,
                          pool: ReusePool, claimedBy: map<VisibleItem, int>)
    requires ValidBindings(prev, firstNew) && Distinct(items)
    requires CallsSoFar(prev, firstNew, next, items, calls)
    requires PoolSoFar(prev, items, calls, pool, claimedBy)
    requires |calls| < |items| && items[|calls|] !in prev
    requires Available(pool, items[|calls|].differentiator) != []
    ensures var item := items[|calls|];
      var p := pool[item.differentiator][0];
      p in prev && p !in Elems(items) && p !in claimedBy
      && CallsSoFar(prev, firstNew, next, items, calls + [HandlerCall(prev[p], item, Some(p))])
  {
  }

  /** Taking the first pooled view leaves the rest of the pool as it was. */
  lemma ClaimLeavesRestPooled(prev: map<VisibleItem, ItemView>, firstNew: ItemView, next: ItemView,
                              items: seq<VisibleItem>, calls: seq<HandlerCall>,
                              pool: ReusePool, claimedBy: map<VisibleItem, int>)
    requires PoolSoFar(prev, items, calls, pool, claimedBy)
    requires |calls| < |items| && items[|calls|] !in prev
    requires Available(pool, items[|calls|].differentiator) != []
    requires var p := pool[items[|calls|].differentiator][0];
      p in prev && p !in Elems(items) && p !in claimedBy
    ensures var item := items[|calls|];
      var d := item.differentiator;
      var p := pool[d][0];
      PoolSoFar(prev, items, calls + [HandlerCall(prev[p], item, Some(p))], pool[d := pool[d][1..]], claimedBy[p := |calls|])
  {
  }

  /** An item new to this pass whose differentiator has nothing pooled gets a
      new view. */
  lemma CreateStep(prev: map<VisibleItem, ItemView>, firstNew: ItemView, next: ItemView,
                   items: seq<VisibleItem>, calls: seq<HandlerCall>,
                   pool: ReusePool, claimedBy: map<VisibleItem, int>)
    requires ValidBindings(prev, firstNew) && Distinct(items)
    requires CallsSoFar(prev, firstNew, next, items, calls)
    requires PoolSoFar(prev, items, calls, pool, claimedBy)
    requires |calls| < |items| && items[|calls|] !in prev
    requires Available(pool, items[|calls|].differentiator) == []
    ensures var calls' := calls + [HandlerCall(next, items[|calls|], None)];
      CallsSoFar(prev, firstNew, next + 1, items, calls') && PoolSoFar(prev, items, calls', pool, claimedBy)
  {
  }

  /** A completed pass resolves its items. */
  lemma PassComplete(prev: map<VisibleItem, ItemView>, firstNew: ItemView, next: ItemView,
                     items: seq<VisibleItem>, calls: seq<HandlerCall>, views: map<VisibleItem, ItemView>,
                     pool: ReusePool, claimedBy: map<VisibleItem, int>)
    requires Distinct(items)
    requires CallsSoFar(prev, firstNew, next, items, calls)
    requires PoolSoFar(prev, items, calls, pool, claimedBy)
    requires |calls| == |items| && BindingsSoFar(items, calls, views)
    ensures Resolves(prev, firstNew, items, calls)
    ensures ValidBindings(views, next) && views.Keys == Elems(items)
  {
  }
}
