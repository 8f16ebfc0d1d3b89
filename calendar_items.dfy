/**
 The items a calendar asks the reuse manager to back with views.

 A visible item pairs the calendar item's view differentiator (the "shape"
 of the view that can display it) with the layout position it stands for.
 The frame of a visible item is never inspected by the reuse manager and is
 not modelled; the calendar date model is reduced to month and day numbers.
 */
module CalendarItems {

  /** The reuse key of a view: two items whose differentiators are equal can
      share one view. `viewType` stands for the type-erased view type and
      `invariantViewProperties` for the type-erased invariant properties. */
  datatype Differentiator = Differentiator(viewType: int, invariantViewProperties: string)

  /** Where in the calendar layout an item stands. */
  datatype ItemType =
    | MonthHeader(month: nat)
    | DayItem(month: nat, day: nat)

  /** A calendar item that is visible in the current layout pass. */
  datatype VisibleItem = VisibleItem(differentiator: Differentiator, itemType: ItemType)

  /** The differentiator of the test suite's mock calendar item. */
  function MockDifferentiator(reuseIdentifier: string): Differentiator
  {
    Differentiator(0, reuseIdentifier)
  }

  /** Two mock items share a view shape exactly when their reuse identifiers agree. */
  lemma MockDifferentiatorsEqualIff(a: string, b: string)
    ensures MockDifferentiator(a) == MockDifferentiator(b) <==> a == b
  {
  }

  /** A sequence lists each of its elements once, as the elements of a `Set`
      enumerate. */
  ghost predicate Distinct<T>(s: seq<T>)
  {
    forall i, j :: 0 <= i < j < |s| ==> s[i] != s[j]
  }

  /** The set a duplicate-free sequence enumerates. */
  function Elems<T>(s: seq<T>): set<T>
  {
    set x | x in s
  }
}
