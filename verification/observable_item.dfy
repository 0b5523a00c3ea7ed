/**
 * `ObservableItem<T>`: a stored element with an observable name, number and checked flag.
 * Every setter overwrites its field and then raises `PropertyChanged` with the property's
 * name, which reaches a handler only when one is subscribed.
 */
module ObservableItems {
  import opened Wrappers

  /** C# `int`. */
  newtype int32 = x: int | -0x8000_0000 <= x < 0x8000_0000

  /** The property names the setters pass to `PropertyChanged`. */
  datatype Property = Name | Number | IsChecked

  /** The notifications one setter raises: its property name, if a handler listens. */
  function Notification(hasSubscriber: bool, propertyName: Property): seq<Property>
  {
    if hasSubscriber then [propertyName] else []
  }

  /** The log `after` is the log `before` followed by `IsChecked` notifications only. */
  ghost predicate ChecksAppended(before: seq<Property>, after: seq<Property>)
  {
    before <= after && forall j :: |before| <= j < |after| ==> after[j] == IsChecked
  }

  class ObservableItem<T> {
    var name: Option<string>
    var number: int32
    var isChecked: bool
    const element: T
    /** Whether a `PropertyChanged` handler is attached. */
    var hasSubscriber: bool
    /** The property names of the notifications raised so far. */
    ghost var events: seq<Property>
    /**
     * `Section` and `SubSection`, read by `ObservableNodeUtilities.CreateNodeTree` but not
     * declared by the class itself: plain settable fields, null until set.
     */
    var section: Option<string>
    var subSection: Option<string>

    constructor (element: T, name: Option<string> := None, number: int32 := 0, isChecked: bool := false)
      ensures this.element == element && this.name == name && this.number == number
      ensures this.isChecked == isChecked
      ensures !hasSubscriber && events == [] && section == None && subSection == None
    {
      this.element := element;
      this.name := name;
      this.number := number;
      this.isChecked := isChecked;
      hasSubscriber := false;
      events := [];
      section := None;
      subSection := None;
    }

    /** The `Name` setter. */
    method SetName(value: Option<string>)
      modifies this`name, this`events
      ensures name == value
      ensures events == old(events) + Notification(hasSubscriber, Name)
    {
      name := value;
      events := events + Notification(hasSubscriber, Name);
    }

    /** The `Number` setter. */
    method SetNumber(value: int32)
      modifies this`number, this`events
      ensures number == value
      ensures events == old(events) + Notification(hasSubscriber, Number)
    {
      number := value;
      events := events + Notification(hasSubscriber, Number);
    }

    /** The `IsChecked` setter; it notifies even when the value does not change. */
    method SetIsChecked(value: bool)
      modifies this`isChecked, this`events
      ensures isChecked == value
      ensures events == old(events) + Notification(hasSubscriber, IsChecked)
    {
      isChecked := value;
      events := events + Notification(hasSubscriber, IsChecked);
    }
  }
}
