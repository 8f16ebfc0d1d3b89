# Item view reuse in HorizonCalendar

HorizonCalendar backs every visible calendar item (month headers, day cells
and so on) with a view. On every layout pass, `ItemViewReuseManager`
receives the set of visible items and calls a view handler once per item. The
handler gets three things: the view now backing the item, the item itself, and
the item that view backed before the pass (its *previous backing item*).

Each item gets its view in one of three ways:

- An item that was already visible keeps its view and reports itself.
- An item that was not visible takes the view of a vacated item with the same
  view differentiator, if one is left. A vacated item is one that was visible
  in the previous pass and is not visible now. The item reports that vacated
  item.
- Otherwise the item gets a newly created view and reports no previous
  backing item.

This project models the manager as a class. Its state is the map from visible
items to view handles plus a counter that hands out new handles. Its one
operation is a loop over the visible items that draws from a pool of vacated
views, kept per differentiator. The project proves that operation against a
property-based specification of a pass (`ReuseSpec.Resolves`). From that
specification it derives the facts the test suite checks: per-item outcomes
and exact per-differentiator counts. The five test scenarios are restated as
verified methods, each on a fresh manager.

Files:

- `optional.dfy`: the `Option` type.
- `calendar_items.dfy`: the differentiator, the visible item, and the mock item's differentiator.
- `set_counting.dfy`: counting over sequences and finite sets.
- `reuse_spec.dfy`: what a pass must report.
- `reuse_pass.dfy`: the loop invariants of a pass, with one step lemma per branch.
- `reuse_manager.dfy`: the manager class and its pass.
- `reuse_properties.dfy`: the properties the tests rely on, derived from the specification.
- `reuse_scenarios.dfy`: the five test scenarios.

## Model

| member | source | states |
|---|---|---|
| ItemViewReuse.ItemViewReuseManager.constructor | Tests/ItemViewReuseManagerTests.swift:25-27 | A new manager backs no item, and its next view handle is 0. |
| ItemViewReuse.ItemViewReuseManager.ViewsForVisibleItems | Tests/ItemViewReuseManagerTests.swift:59-65 | There is one handler call per visible item, in order, and every call is correct (`Resolves`): an already visible item keeps its view and reports itself; any other item reuses a vacated view of its own differentiator and reports that item, or gets a new view and reports none. No two items share a view. A new view is created only when no vacated view of that differentiator is left: every vacated view of it was reused by an earlier call. The manager then backs exactly the visible items, each with the view its call reported, and its counter advances by the number of views created. |
| ItemViewReuse.ResolvePass | Tests/ItemViewReuseManagerTests.swift:59-65 | The loop behind one pass meets `Resolves` from any valid bindings. Afterwards the bindings map exactly the visible items to pairwise distinct handles below the new counter. |
| ItemViewReuse.PoolVacated | Tests/ItemViewReuseManagerTests.swift:179-188 | Every vacated item is pooled once, under its own differentiator, and only vacated items are pooled. |
| CalendarItems.MockDifferentiatorsEqualIff | Tests/ItemViewReuseManagerTests.swift:443-447 | Two mock items share a differentiator if and only if their reuse identifiers are equal. |
| ReuseProperties.FirstPassCreatesEveryView | Tests/ItemViewReuseManagerTests.swift:59-65 | In a pass from empty bindings, every call reports no previous backing item, and one view is created per item. |
| ReuseProperties.IdenticalPassKeepsEveryView | Tests/ItemViewReuseManagerTests.swift:98-113 | A pass over exactly the previous pass's items reports each item as its own previous backing item. It keeps each item's view and creates none. |
| ReuseProperties.ReuseKeepsDifferentiator | Tests/ItemViewReuseManagerTests.swift:179-188 | A reported previous backing item had a view, has the differentiator of the item it is reported for, and gives up exactly that view. |
| ReuseProperties.UnseenDifferentiatorGetsNewView | Tests/ItemViewReuseManagerTests.swift:282-286 | If no item of a differentiator had a view before the pass, every item of it reports no previous backing item and gets a new handle. This holds whatever views of other differentiators were vacated. |
| ReuseProperties.ClaimPrecedesCreation | Tests/ItemViewReuseManagerTests.swift:290-429 | In a correct pass, a call that reuses a vacated view of a differentiator comes before every call that creates a view for that differentiator. |
| ReuseProperties.CreationWaitsForVacatedViews | Tests/ItemViewReuseManagerTests.swift:290-429 | For example, with one vacated view and two arriving items of its differentiator, a pass that creates a view for the first item and hands the vacated view to the second is not correct. |
| ReuseProperties.CountsPartition | Tests/ItemViewReuseManagerTests.swift:400-410 | For each differentiator, reuse calls plus new-view calls equal its number of visible items. Hence every item is reported exactly once. |
| ReuseProperties.ReuseCountIsMin | Tests/ItemViewReuseManagerTests.swift:412-420 | For each differentiator, the number of calls that report a previous backing item is the smaller of two counts: its items with a view before the pass, and its visible items. |
| ReuseProperties.NewViewCountIsExcess | Tests/ItemViewReuseManagerTests.swift:412-420 | For each differentiator, the number of new views is how far its visible items exceed its items with a view before the pass (zero if they do not). |
| ReuseProperties.PreviousItemsCount | Tests/ItemViewReuseManagerTests.swift:176 | After a pass over a list of items, the items of a differentiator that have a view are as many as that list holds. |
| ReuseProperties.ReusedWithoutGrowth | Tests/ItemViewReuseManagerTests.swift:273-281 | If a differentiator has no more visible items than it had items with a view, each of its items reports a previous backing item. |
| ReuseProperties.EveryItemReusedWithoutGrowth | Tests/ItemViewReuseManagerTests.swift:116-189 | If no differentiator gains items, every item reports a previous backing item. |
| ReuseScenarios.InitialViewCreationWithNoReuse | Tests/ItemViewReuseManagerTests.swift:29-66 | On a fresh manager, all four items report no previous backing item. |
| ReuseScenarios.ReusingIdenticalViews | Tests/ItemViewReuseManagerTests.swift:68-114 | In the second pass over the same four items, each call reports its own item. |
| ReuseScenarios.ReusingAllViews | Tests/ItemViewReuseManagerTests.swift:116-189 | In the second pass, every item reports a previous backing item with the item's own differentiator. |
| ReuseScenarios.ReusingSomeViews | Tests/ItemViewReuseManagerTests.swift:191-288 | Items of `item_type_1` and `item_type_3` report a previous backing item of their own differentiator. Items of `item_type_4` and `item_type_5` report none. |
| ReuseScenarios.SomeViewsOutcome | Tests/ItemViewReuseManagerTests.swift:270-287 | Any correct second pass of the partial-reuse scenario meets that test's assertion for every call. |
| ReuseScenarios.TallyCalls | Tests/ItemViewReuseManagerTests.swift:398-410 | The test handler's two dictionaries hold, for each differentiator with at least one such call, its reuse count and its new-view count, and no other keys. |
| ReuseScenarios.DepletingAvailableReusableViews | Tests/ItemViewReuseManagerTests.swift:290-429 | The reuse tally is `item_type_0: 2, item_type_1: 3`. The new-view tally is `item_type_0: 1, item_type_1: 2, item_type_2: 1`. |
| ReuseScenarios.DepletionTallies | Tests/ItemViewReuseManagerTests.swift:412-428 | Any correct second pass of the depletion scenario yields exactly the two expected dictionaries. |
| ReuseScenarios.DepletionOutcome | Tests/ItemViewReuseManagerTests.swift:412-420 | In the depletion scenario, the reuse and new-view counts of every differentiator are those the test expects, and zero for every other differentiator. |
| ReuseScenarios.DepletionSubsequentCounts | Tests/ItemViewReuseManagerTests.swift:328-392 | The depletion test's second pass shows three `item_type_0` items, five `item_type_1` items and one `item_type_2` item, nine in all. |

## Left out

- The production `ItemViewReuseManager` is not part of this model. The model is the contract the test suite pins down. Where the suite leaves a choice open, the model takes one and proves only the properties.
- Which vacated view goes to which arriving item is not claimed. The pool is built from the vacated items in an unspecified order, just as a Swift dictionary's order is unspecified. Each differentiator's pool is then drawn in order.
- Vacated views that no item reclaims are dropped: the manager keeps no record of them.
- View construction and configuration are left out, as are the mock item's `buildView`, `updateViewModel` and `updateHighlightState`. A view is a natural-number handle taken from a counter.
- The `frame` of a visible item is never inspected and is not modelled.
- The calendar date model (era, year, Gregorian flag) is reduced to month and day numbers.
- The `AnyHashable` type erasure of the differentiator is modelled as a plain pair of an integer and a string.
- Differentiators and visible items are compared by code-point equality of their strings, not by Swift's `String` equality. Swift's `String` equality, which `AnyHashable` inherits, treats canonically equivalent strings as equal: a precomposed "é" equals "e" followed by a combining acute accent. Two reuse identifiers that Swift treats as one shape, or two items it treats as one `Set` element, can therefore be two in the model.
- Equality of visible items is modelled as structural equality of differentiator and position, because the production type's equality is not part of this model.
- `isInvariantViewProperties` and `isViewModel` always answer false in the mock and play no part in reuse, so they are not modelled.
- ItemViewReuse.ItemViewReuseManager.ViewsForVisibleItems: takes the visible items as a duplicate-free sequence, which stands in for a `Set` and its unspecified iteration order. The requirement that the sequence be duplicate-free is what the `Set` guarantees.
- ItemViewReuse.ItemViewReuseManager.ViewsForVisibleItems: the handler is modelled as the returned sequence of calls, in the order they are made. Effects a handler could have on the manager while it runs are not modelled.
- The XCTest harness is not modelled. `setUp` creating a fresh manager becomes a `new ItemViewReuseManager()` at the start of each scenario.
