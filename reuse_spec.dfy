/**
 What one layout pass of the item view reuse manager must report: for every
 visible item, the view that now backs it and the item that view backed before.
 */
module ReuseSpec {

  import opened Optional
  import opened CalendarItems
  import opened SetCounting

  /** A view handle. View construction and configuration are not modelled:
      a new view is the next unused handle. */
  type ItemView = nat

  /** One invocation of the view handler: the view now backing `item`, the
      item itself, and the item that view was backing before this pass. */
  datatype HandlerCall = HandlerCall(view: ItemView, item: VisibleItem, previousBackingItem: Option<VisibleItem>)

  /** Vacated items whose views may be reused, per differentiator, in the
      order they are handed out. */
  type ReusePool = map<Differentiator, seq<VisibleItem>>

  function Available(pool: ReusePool, d: Differentiator): (s: seq<VisibleItem>)
    ensures d !in pool ==> s == []
  {
    if d in pool then pool[d] else []
  }

  /** Every pooled item is vacated, is pooled under its own differentiator,
      and is pooled once. */
  ghost predicate PoolHolds(pool: ReusePool, vacated: set<VisibleItem>)
  {
    forall d :: d in pool ==>
      Distinct(pool[d]) && forall v :: v in pool[d] ==> v in vacated && v.differentiator == d
  }

  // Specification of one layout pass.  `prev` is the item-to-view map before
  // the pass, `firstNew` the first handle not yet used, `requested` the set of
  // visible items of the pass.

  /** The outcome reported for one item: an item that was already visible keeps
      its view and reports itself as the previous backing item; any other item
      either gets a new view and reports no previous backing item, or takes the
      view of a vacated item with the same differentiator and reports that item. */
  ghost predicate HandledCorrectly(prev: map<VisibleItem, ItemView>, firstNew: ItemView,
                                   requested: set<VisibleItem>, call: HandlerCall)
  {
    if call.item in prev then
      call.previousBackingItem == Some(call.item) && call.view == prev[call.item]
    else
      match call.previousBackingItem
      case None => firstNew <= call.view
      case Some(p) =>
        p in prev && p !in requested && p.differentiator == call.item.differentiator && call.view == prev[p]
  }

  /** No view backs two of the visible items. */
  ghost predicate DistinctViews(calls: seq<HandlerCall>)
  {
    forall i, j :: 0 <= i < j < |calls| ==> calls[i].view != calls[j].view
  }

  /** A new view is created for a differentiator only when no vacated view of
      that differentiator is left: an earlier call has already reused each one. */
  ghost predicate NoViewWasted(prev: map<VisibleItem, ItemView>, requested: set<VisibleItem>,
                               calls: seq<HandlerCall>)
  {
    forall i, v ::
      0 <= i < |calls| && calls[i].previousBackingItem == None &&
      v in prev && v !in requested && v.differentiator == calls[i].item.differentiator
      ==> exists j :: 0 <= j < i && calls[j].previousBackingItem == Some(v)
  }

  /** `calls` is a correct answer, handler call by handler call, to a pass
      over `items` starting from the bindings `prev`. */
  ghost predicate Resolves(prev: map<VisibleItem, ItemView>, firstNew: ItemView,
                           items: seq<VisibleItem>, calls: seq<HandlerCall>)
  {
    |calls| == |items|
    && (forall i :: 0 <= i < |calls| ==> calls[i].item == items[i])
    && (forall i :: 0 <= i < |calls| ==> HandledCorrectly(prev, firstNew, Elems(items), calls[i]))
    && DistinctViews(calls)
    && NoViewWasted(prev, Elems(items), calls)
  }

  /** Whether a handler call reports a newly created view. */
  predicate CreatesView(call: HandlerCall)
  {
    call.previousBackingItem.None?
  }

  /** The number of handler calls that create a new view. */
  function CreationCount(calls: seq<HandlerCall>): nat
  {
    CountWhere(calls, CreatesView)
  }

  /** A further call adds one to the creations exactly when it creates a view. */
  lemma CreationCountAppend(calls: seq<HandlerCall>, call: HandlerCall)
    ensures CreationCount(calls + [call]) == CreationCount(calls) + (if call.previousBackingItem.None? then 1 else 0)
  {
    assert (calls + [call])[..|calls|] == calls;
  }

  /** No two items share a view, and every handle in use is below `next`. */
  ghost predicate ValidBindings(views: map<VisibleItem, ItemView>, next: ItemView)
  {
    (forall x :: x in views ==> views[x] < next)
    && (forall x, y :: x in views && y in views && x != y ==> views[x] != views[y])
  }
}
