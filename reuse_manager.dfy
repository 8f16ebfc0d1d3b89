/**
 The item view reuse manager: it remembers which view backs each visible
 item, and on every layout pass hands each newly visible item a view, either
 the one it already had, one vacated by an item that is no longer visible and
 has the same differentiator, or a newly created one.
 */
module ItemViewReuse {

  import opened Optional
  import opened CalendarItems
  import opened ReuseSpec
  import opened ReusePass

  /** Groups the vacated items by differentiator, in an unspecified order. */
  method PoolVacated(vacated: set<VisibleItem>) returns (pool: ReusePool)
    ensures PoolHolds(pool, vacated)
    ensures forall v :: v in vacated ==> v in Available(pool, v.differentiator)
  {
    pool := map[];
    var unpooled := vacated;
    while unpooled != {}
      invariant unpooled <= vacated
      invariant PoolHolds(pool, vacated)
      invariant forall v :: v in vacated ==> (v in Available(pool, v.differentiator) <==> v !in unpooled)
      decreases |unpooled|
    {
      if forall v :: v !in unpooled { assert false; }
      var v :| v in unpooled;
      pool := pool[v.differentiator := Available(pool, v.differentiator) + [v]];
      unpooled := unpooled - {v};
    }
  }

  /** One pass over `items` starting from the bindings `prev`: the handler
      calls in order, the new bindings, and the next unused handle. The items
      are answered one by one, in the order given: an item that was visible
      before keeps its view, any other item takes the first pooled view of its
      differentiator if there is one and a new view otherwise. */
  method ResolvePass(prev: map<VisibleItem, ItemView>, firstNew: ItemView, items: seq<VisibleItem>)
    returns (calls: seq<HandlerCall>, views: map<VisibleItem, ItemView>, next: ItemView)
    requires ValidBindings(prev, firstNew)
    requires Distinct(items)
    ensures Resolves(prev, firstNew, items, calls)
    ensures ValidBindings(views, next)
    ensures views.Keys == Elems(items)
    ensures forall i :: 0 <= i < |calls| ==> views[calls[i].item] == calls[i].view
    ensures next == firstNew + CreationCount(calls)
  {
    var pool := PoolVacated(prev.Keys - Elems(items));
    PassStart(prev, firstNew, items, pool);
    ghost var claimedBy: map<VisibleItem, int> := map[];
    next, views, calls := firstNew, map[], [];
    var i := 0;
    while i < |items|
      invariant 0 <= i <= |items| && |calls| == i
      invariant CallsSoFar(prev, firstNew, next, items, calls)
      invariant PoolSoFar(prev, items, calls, pool, claimedBy)
      invariant next == firstNew + CreationCount(calls)
      invariant BindingsSoFar(items, calls, views)
    {
      var item := items[i];
      var call;
      if item in prev {
        ContinueStep(prev, firstNew, next, items, calls, pool, claimedBy);
        call := HandlerCall(prev[item], item, Some(item));
      } else if Available(pool, item.differentiator) != [] {
        ClaimStep(prev, firstNew, next, items, calls, pool, claimedBy);
        var d := item.differentiator;
        var p := pool[d][0];
        pool := pool[d := pool[d][1..]];
        claimedBy := claimedBy[p := i];
        call := HandlerCall(prev[p], item, Some(p));
      } else {
        CreateStep(prev, firstNew, next, items, calls, pool, claimedBy);
        call := HandlerCall(next, item, None);
        next := next + 1;
      }
      CreationCountAppend(calls, call);
      BindingsStep(items, calls, views, call);
      views := views[item := call.view];
      calls := calls + [call];
      i := i + 1;
    }
    PassComplete(prev, firstNew, next, items, calls, views, pool, claimedBy);
  }

  class ItemViewReuseManager {

    /** The view backing each item of the last pass. */
    var viewsForItems: map<VisibleItem, ItemView>
    /** The handle the next created view receives. */
    var nextView: ItemView

    ghost predicate Valid()
      reads this
    {
      ValidBindings(viewsForItems, nextView)
    }

    /** A new manager backs no item. */
    constructor ()
      ensures Valid()
      ensures viewsForItems == map[] && nextView == 0
    {
      viewsForItems := map[];
      nextView := 0;
    }

    /** Hands every visible item a view, calling the view handler once per item
        (the calls are returned in order), and remembers the new bindings. */
    method ViewsForVisibleItems(items: seq<VisibleItem>) returns (calls: seq<HandlerCall>)
      requires Valid()
      requires Distinct(items)
      modifies this
      ensures Valid()
      ensures Resolves(old(viewsForItems), old(nextView), items, calls)
      ensures viewsForItems.Keys == Elems(items)
      ensures forall i :: 0 <= i < |calls| ==> viewsForItems[calls[i].item] == calls[i].view
      ensures nextView == old(nextView) + CreationCount(calls)
    {
      var views, next;
      calls, views, next := ResolvePass(viewsForItems, nextView, items);
      viewsForItems, nextView := views, next;
    }
  }
}
