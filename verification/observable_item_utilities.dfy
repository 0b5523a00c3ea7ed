/**
 * `ObservableItemUtilities<T>`: bulk changes of the checked flag of observable items.  A
 * selection is the sequence of selected items, possibly with repetitions.
 */
module ObservableItemUtilities {
  import opened Wrappers
  import opened ObservableItems

  /** The objects of a sequence, as a frame. */
  function Members<X>(s: seq<X>): set<X>
  {
    set x | x in s
  }

  /** The number of occurrences of `x` in `s`. */
  function Count<X(==)>(s: seq<X>, x: X): nat
  {
    if s == [] then 0 else Count(s[..|s| - 1], x) + (if s[|s| - 1] == x then 1 else 0)
  }

  /** `Count` is the multiplicity of `x` in the multiset of `s`. */
  lemma {:induction false} CountIsMultiplicity<X>(s: seq<X>, x: X)
    ensures Count(s, x) == multiset(s)[x]
  {
    if s != [] {
      CountIsMultiplicity(s[..|s| - 1], x);
      assert s == s[..|s| - 1] + [s[|s| - 1]];
    }
  }

  /** `s` written `n` times in a row. */
  function Repeat<X>(s: seq<X>, n: nat): seq<X>
  {
    if n == 0 then [] else Repeat(s, n - 1) + s
  }

  /** One step of a notification log: `hit` says whether the step raised `note`. */
  lemma LogStep(start: seq<Property>, before: seq<Property>, after: seq<Property>, note: seq<Property>, n: nat, hit: bool)
    requires before == start + Repeat(note, n)
    requires after == before + (if hit then note else [])
    ensures after == start + Repeat(note, n + (if hit then 1 else 0))
  {
  }

  /** A flag negated `n` times. */
  function Toggled(flag: bool, n: nat): (r: bool)
    ensures r == (if n % 2 == 0 then flag else !flag)
  {
    if n == 0 then flag else !Toggled(flag, n - 1)
  }

  /** Negating a flag the same number of times twice restores it. */
  lemma ToggleTwiceRestores(flag: bool, n: nat)
    ensures Toggled(Toggled(flag, n), n) == flag
  {
  }

  /** Toggling by a selection of distinct items flips each of them exactly once. */
  lemma DistinctSelectionFlipsOnce<T>(selection: seq<ObservableItem<T>>, item: ObservableItem<T>, flag: bool)
    requires forall j, k :: 0 <= j < k < |selection| ==> selection[j] != selection[k]
    requires item in selection
    ensures Toggled(flag, Count(selection, item)) == !flag
  {
    CountIsMultiplicity(selection, item);
    var k :| 0 <= k < |selection| && selection[k] == item;
    assert selection == selection[..k] + [item] + selection[k + 1..];
    assert item !in selection[..k] && item !in selection[k + 1..];
  }

  /**
   * `IsCheckedChange`: every listed item ends with `isChecked == requiredValue`, and each
   * raised one `IsChecked` notification per occurrence in the list (none without a
   * subscriber).  Names, numbers, elements and the list itself are untouched.
   */
  method IsCheckedChange<T>(observableItems: seq<ObservableItem<T>>, requiredValue: bool)
    modifies Members(observableItems)`isChecked, Members(observableItems)`events
    ensures forall i :: i in observableItems ==> i.isChecked == requiredValue
    ensures forall i :: i in observableItems ==>
      i.events == old(i.events) + Repeat(Notification(i.hasSubscriber, IsChecked), Count(observableItems, i))
  {
    for k := 0 to |observableItems|
      invariant forall i :: i in observableItems ==>
        i.isChecked == (if Count(observableItems[..k], i) > 0 then requiredValue else old(i.isChecked))
      invariant forall i :: i in observableItems ==>
        i.events == old(i.events) + Repeat(Notification(i.hasSubscriber, IsChecked), Count(observableItems[..k], i))
    {
      var item := observableItems[k];
      label Before:
      item.SetIsChecked(requiredValue);
      assert observableItems[..k + 1][..k] == observableItems[..k];
      forall i | i in observableItems
        ensures i.isChecked == (if Count(observableItems[..k + 1], i) > 0 then requiredValue else old(i.isChecked))
        ensures i.events == old(i.events)
          + Repeat(Notification(i.hasSubscriber, IsChecked), Count(observableItems[..k + 1], i))
      {
        var n := Count(observableItems[..k], i);
        assert Count(observableItems[..k + 1], i) == n + (if i == item then 1 else 0);
        assert i.isChecked == (if i == item then requiredValue else old@Before(i.isChecked));
        LogStep(old(i.events), old@Before(i.events), i.events, Notification(i.hasSubscriber, IsChecked),
          n, i == item);
      }
    }
    assert observableItems[..|observableItems|] == observableItems;
    forall i | i in observableItems
      ensures Count(observableItems, i) > 0
    {
      CountIsMultiplicity(observableItems, i);
    }
  }

  /**
   * `SelectionIsCheckedToggle`: every selected item is negated once per time it is
   * selected; a null or empty selection changes nothing.
   */
  method SelectionIsCheckedToggle<T>(selectedItems: Option<seq<ObservableItem<T>>>)
    modifies (if selectedItems.Some? then Members(selectedItems.value) else {})`isChecked
    modifies (if selectedItems.Some? then Members(selectedItems.value) else {})`events
    ensures selectedItems.Some? ==> forall i :: i in selectedItems.value ==>
      i.isChecked == Toggled(old(i.isChecked), Count(selectedItems.value, i))
    ensures selectedItems.Some? ==> forall i :: i in selectedItems.value ==>
      i.events == old(i.events) + Repeat(Notification(i.hasSubscriber, IsChecked), Count(selectedItems.value, i))
  {
    if selectedItems.Some? && |selectedItems.value| > 0 {
      ToggleEach(selectedItems.value);
    }
  }

  /** The loop of `SelectionIsCheckedToggle`, over a selection that is present. */
  method ToggleEach<T>(selection: seq<ObservableItem<T>>)
    modifies Members(selection)`isChecked, Members(selection)`events
    ensures forall i :: i in selection ==> i.isChecked == Toggled(old(i.isChecked), Count(selection, i))
    ensures forall i :: i in selection ==>
      i.events == old(i.events) + Repeat(Notification(i.hasSubscriber, IsChecked), Count(selection, i))
  {
    for k := 0 to |selection|
      invariant forall i :: i in selection ==> i.isChecked == Toggled(old(i.isChecked), Count(selection[..k], i))
      invariant forall i :: i in selection ==>
        i.events == old(i.events) + Repeat(Notification(i.hasSubscriber, IsChecked), Count(selection[..k], i))
    {
      var item := selection[k];
      label Before:
      item.SetIsChecked(!item.isChecked);
      assert selection[..k + 1][..k] == selection[..k];
      forall i | i in selection
        ensures i.isChecked == Toggled(old(i.isChecked), Count(selection[..k + 1], i))
        ensures i.events == old(i.events)
          + Repeat(Notification(i.hasSubscriber, IsChecked), Count(selection[..k + 1], i))
      {
        var n := Count(selection[..k], i);
        assert Count(selection[..k + 1], i) == n + (if i == item then 1 else 0);
        assert i.isChecked == (if i == item then !old@Before(i.isChecked) else old@Before(i.isChecked));
        LogStep(old(i.events), old@Before(i.events), i.events, Notification(i.hasSubscriber, IsChecked),
          n, i == item);
      }
    }
    assert selection[..|selection|] == selection;
  }
}
