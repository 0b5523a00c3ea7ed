/**
 * `ObservableNode<T>`: a named, checkable tree node with child nodes and child items.
 * Setting `IsChecked` notifies; when a handler is subscribed, the notification also pushes
 * the new value down to every child node (which cascades further if it has a handler too)
 * and to every child item.
 */
module ObservableNodes {
  import opened ObservableItems
  import ObservableItemUtilities

  /** `List<T>.Remove`: drops the first occurrence of `x`, if any. */
  function RemoveFirst<X(==)>(s: seq<X>, x: X): (r: seq<X>)
    ensures x !in s ==> r == s
    ensures x in s ==> |r| == |s| - 1
  {
    if s == [] then []
    else if s[0] == x then s[1..]
    else [s[0]] + RemoveFirst(s[1..], x)
  }

  /** Exactly one copy of `x` goes, when there is one. */
  lemma {:induction false} RemoveFirstMultiset<X>(s: seq<X>, x: X)
    ensures multiset(RemoveFirst(s, x)) == multiset(s) - multiset{x}
  {
    if s != [] {
      assert s == [s[0]] + s[1..];
      if s[0] != x {
        RemoveFirstMultiset(s[1..], x);
      }
    }
  }

  /** `RemoveFirst` keeps only elements that were there. */
  lemma {:induction false} RemoveFirstShrinks<X>(s: seq<X>, x: X)
    ensures forall y :: y in RemoveFirst(s, x) ==> y in s
  {
    if s != [] && s[0] != x {
      RemoveFirstShrinks(s[1..], x);
    }
  }

  /** The position of the first occurrence of `x` in `s`. */
  function FirstIndex<X(==)>(s: seq<X>, x: X): (k: nat)
    requires x in s
    ensures k < |s| && s[k] == x && x !in s[..k]
  {
    if s[0] == x then 0 else 1 + FirstIndex(s[1..], x)
  }

  /** `RemoveFirst` cuts out exactly the first occurrence: what precedes and follows it stays, in order. */
  lemma {:induction false} RemoveFirstCutsFirstOccurrence<X>(s: seq<X>, x: X)
    requires x in s
    ensures RemoveFirst(s, x) == s[..FirstIndex(s, x)] + s[FirstIndex(s, x) + 1..]
  {
    if s[0] != x {
      RemoveFirstCutsFirstOccurrence(s[1..], x);
      var k := FirstIndex(s[1..], x);
      assert s[..k + 1] == [s[0]] + s[1..][..k];
      assert s[k + 2..] == s[1..][k + 1..];
    }
  }

  /**
   * What a change of `IsChecked` leaves in the log of an object it reached: `IsChecked`
   * notifications appended, at least one when a handler is subscribed and none otherwise.
   */
  ghost predicate Notified(before: seq<Property>, after: seq<Property>, hasSubscriber: bool)
  {
    ChecksAppended(before, after) && (if hasSubscriber then |before| < |after| else after == before)
  }

  /** Running the setter `n` times on one object leaves its log `Notified` when `n > 0`, and unchanged when `n == 0`. */
  lemma {:induction false} RepeatedChecks(before: seq<Property>, hasSubscriber: bool, n: nat)
    ensures var after := before + ObservableItemUtilities.Repeat(Notification(hasSubscriber, IsChecked), n);
      if n == 0 then after == before else Notified(before, after, hasSubscriber)
  {
    if n > 0 {
      RepeatedChecks(before, hasSubscriber, n - 1);
      var note := Notification(hasSubscriber, IsChecked);
      var mid := before + ObservableItemUtilities.Repeat(note, n - 1);
      assert before + ObservableItemUtilities.Repeat(note, n) == mid + note;
    }
  }

  /** A second change that reaches an object only appends to its log. */
  lemma NotifiedAgain(first: seq<Property>, second: seq<Property>, third: seq<Property>, hasSubscriber: bool)
    requires Notified(first, second, hasSubscriber) && Notified(second, third, hasSubscriber)
    ensures Notified(first, third, hasSubscriber)
  {
  }

  class ObservableNode<T> {
    var name: string
    var isChecked: bool
    /** Whether a `PropertyChanged` handler is attached. */
    var hasSubscriber: bool
    var childNodes: seq<ObservableNode<T>>
    var childItems: seq<ObservableItem<T>>
    /** The property names of the notifications this node raised. */
    ghost var events: seq<Property>
    /** This node and every node below it. */
    ghost var Nodes: set<ObservableNode<T>>
    /** Every item below this node. */
    ghost var Items: set<ObservableItem<T>>
    /** Longer than any path down from this node. */
    ghost var height: nat

    /** The nodes below this one form a tree-shaped, acyclic structure (sharing is allowed). */
    ghost predicate Valid()
      reads this`Nodes, this`Items, this`childNodes, this`childItems, this`height
      reads Nodes`childNodes, Nodes`childItems, Nodes`Nodes, Nodes`Items, Nodes`height
      decreases height
    {
      && this in Nodes
      && (forall i :: i in childItems ==> i in Items)
      && (forall n :: n in childNodes ==>
            && n in Nodes && n.Nodes <= Nodes && n.Items <= Items && this !in n.Nodes && n.height < height)
      && (forall n :: n in childNodes ==> n.Valid())
    }

    /** The child lists start empty (the C# constructor never assigns them). */
    constructor (name: string, isChecked: bool := false)
      ensures this.name == name && this.isChecked == isChecked
      ensures childNodes == [] && childItems == [] && !hasSubscriber && events == []
      ensures Valid() && Nodes == {this} && Items == {} && height == 0
    {
      this.name := name;
      this.isChecked := isChecked;
      hasSubscriber := false;
      childNodes := [];
      childItems := [];
      events := [];
      Nodes := {this};
      Items := {};
      height := 0;
    }

    /** The `Name` setter: no child is touched, whatever the subscriber. */
    method SetName(value: string)
      modifies this`name, this`events
      ensures name == value
      ensures events == old(events) + Notification(hasSubscriber, Name)
    {
      name := value;
      events := events + Notification(hasSubscriber, Name);
    }

    /** `AddChildNode`: appends, and keeps the tree shape when `child` lies outside it. */
    method AddChildNode(child: ObservableNode<T>)
      modifies this`childNodes, this`Nodes, this`Items, this`height
      ensures childNodes == old(childNodes) + [child]
      ensures Nodes == old(Nodes) + child.Nodes && Items == old(Items) + child.Items
      ensures old(Valid()) && child.Valid() && this !in child.Nodes ==> Valid()
    {
      childNodes := childNodes + [child];
      Nodes := Nodes + child.Nodes;
      Items := Items + child.Items;
      height := if height > child.height then height else child.height + 1;
    }

    /** `RemoveChildNode`: drops the first occurrence of `child`; no-op when absent. */
    method RemoveChildNode(child: ObservableNode<T>)
      modifies this`childNodes
      ensures childNodes == RemoveFirst(old(childNodes), child)
      ensures old(Valid()) ==> Valid()
    {
      RemoveFirstShrinks(childNodes, child);
      childNodes := RemoveFirst(childNodes, child);
    }

    /** `AddChildItem`: appends. */
    method AddChildItem(item: ObservableItem<T>)
      modifies this`childItems, this`Items
      ensures childItems == old(childItems) + [item]
      ensures Items == old(Items) + {item}
      ensures old(Valid()) ==> Valid()
    {
      childItems := childItems + [item];
      Items := Items + {item};
    }

    /** `RemoveChildItem`: drops the first occurrence of `item`; no-op when absent. */
    method RemoveChildItem(item: ObservableItem<T>)
      modifies this`childItems
      ensures childItems == RemoveFirst(old(childItems), item)
      ensures old(Valid()) ==> Valid()
    {
      RemoveFirstShrinks(childItems, item);
      childItems := RemoveFirst(childItems, item);
    }

    /**
     * The nodes whose flag a change of this node's `IsChecked` sets: this node, and, when it
     * has a subscriber, what each child node's own change reaches.
     */
    ghost function ReachedNodes(): (r: set<ObservableNode<T>>)
      requires Valid()
      reads this`Nodes, this`Items, this`childNodes, this`childItems, this`height, this`hasSubscriber
      reads Nodes`childNodes, Nodes`childItems, Nodes`Nodes, Nodes`Items, Nodes`height, Nodes`hasSubscriber
      ensures this in r && r <= Nodes
      decreases height, 1
    {
      {this} + (if hasSubscriber then ReachedNodesBelow(|childNodes|) else {})
    }

    /** What the changes of the first `k` child nodes reach. */
    ghost function ReachedNodesBelow(k: nat): (r: set<ObservableNode<T>>)
      requires Valid() && k <= |childNodes|
      reads this`Nodes, this`Items, this`childNodes, this`childItems, this`height, this`hasSubscriber
      reads Nodes`childNodes, Nodes`childItems, Nodes`Nodes, Nodes`Items, Nodes`height, Nodes`hasSubscriber
      ensures r <= Nodes && this !in r
      decreases height, 0, k
    {
      if k == 0 then {} else ReachedNodesBelow(k - 1) + childNodes[k - 1].ReachedNodes()
    }

    /** The items whose flag a change of this node's `IsChecked` sets. */
    ghost function ReachedItems(): (r: set<ObservableItem<T>>)
      requires Valid()
      reads this`Nodes, this`Items, this`childNodes, this`childItems, this`height, this`hasSubscriber
      reads Nodes`childNodes, Nodes`childItems, Nodes`Nodes, Nodes`Items, Nodes`height, Nodes`hasSubscriber
      ensures r <= Items
      decreases height, 1
    {
      if hasSubscriber then ReachedItemsBelow(|childNodes|) + (set i | i in childItems) else {}
    }

    /** The items the changes of the first `k` child nodes reach. */
    ghost function ReachedItemsBelow(k: nat): (r: set<ObservableItem<T>>)
      requires Valid() && k <= |childNodes|
      reads this`Nodes, this`Items, this`childNodes, this`childItems, this`height, this`hasSubscriber
      reads Nodes`childNodes, Nodes`childItems, Nodes`Nodes, Nodes`Items, Nodes`height, Nodes`hasSubscriber
      ensures r <= Items
      decreases height, 0, k
    {
      if k == 0 then {} else ReachedItemsBelow(k - 1) + childNodes[k - 1].ReachedItems()
    }

    /**
     * The `IsChecked` setter.  The flag of every reached node and item becomes `value`, and
     * its log gains the `IsChecked` notifications of the setters run on it; every other flag
     * and log is untouched.  `Valid()` stands for the acyclic structure without which the
     * cascade would not terminate.
     */
    method SetIsChecked(value: bool)
      requires Valid()
      modifies Nodes`isChecked, Nodes`events, Items`isChecked, Items`events
      decreases height, 3
      ensures isChecked == value
      ensures events == old(events) + Notification(hasSubscriber, IsChecked)
      ensures forall m :: m in Nodes && m != this ==>
        if m in old(ReachedNodes()) then m.isChecked == value && Notified(old(m.events), m.events, m.hasSubscriber)
        else m.isChecked == old(m.isChecked) && m.events == old(m.events)
      ensures forall i :: i in Items ==>
        if i in old(ReachedItems()) then i.isChecked == value && Notified(old(i.events), i.events, i.hasSubscriber)
        else i.isChecked == old(i.isChecked) && i.events == old(i.events)
    {
      ghost var nodesBelow := ReachedNodesBelow(|childNodes|);
      ghost var reachedItems := ReachedItems();
      isChecked := value;
      events := events + Notification(hasSubscriber, IsChecked);
      if hasSubscriber {
        assert nodesBelow == ReachedNodesBelow(|childNodes|) && reachedItems == ReachedItems();
        Cascade(value);
      }
    }

    /** The part of `OnPropertyChanged` that runs for `IsChecked` when a handler is subscribed. */
    method Cascade(value: bool)
      requires Valid() && hasSubscriber
      modifies Nodes`isChecked, Nodes`events, Items`isChecked, Items`events
      decreases height, 2
      ensures isChecked == old(isChecked) && events == old(events)
      ensures forall m :: m in Nodes && m != this ==>
        if m in old(ReachedNodesBelow(|childNodes|)) then m.isChecked == value && Notified(old(m.events), m.events, m.hasSubscriber)
        else m.isChecked == old(m.isChecked) && m.events == old(m.events)
      ensures forall i :: i in Items ==>
        if i in old(ReachedItems()) then i.isChecked == value && Notified(old(i.events), i.events, i.hasSubscriber)
        else i.isChecked == old(i.isChecked) && i.events == old(i.events)
    {
      ghost var below := old(ReachedItemsBelow(|childNodes|));
      CascadeToChildNodes(value);
      label Nodes:
      CascadeToChildItems(value);
      forall i | i in Items && i in childItems
        ensures Notified(old(i.events), i.events, i.hasSubscriber)
      {
        var n := ObservableItemUtilities.Count(childItems, i);
        ObservableItemUtilities.CountIsMultiplicity(childItems, i);
        RepeatedChecks(old@Nodes(i.events), i.hasSubscriber, n);
        if i in below {
          NotifiedAgain(old(i.events), old@Nodes(i.events), i.events, i.hasSubscriber);
        }
      }
    }

    /** The `ForEach` over `ChildNodes`: each child's `IsChecked` setter, in list order. */
    method CascadeToChildNodes(value: bool)
      requires Valid()
      modifies Nodes`isChecked, Nodes`events, Items`isChecked, Items`events
      decreases height, 1
      ensures isChecked == old(isChecked) && events == old(events)
      ensures forall m :: m in Nodes && m != this ==>
        if m in old(ReachedNodesBelow(|childNodes|)) then m.isChecked == value && Notified(old(m.events), m.events, m.hasSubscriber)
        else m.isChecked == old(m.isChecked) && m.events == old(m.events)
      ensures forall i :: i in Items ==>
        if i in old(ReachedItemsBelow(|childNodes|)) then i.isChecked == value && Notified(old(i.events), i.events, i.hasSubscriber)
        else i.isChecked == old(i.isChecked) && i.events == old(i.events)
    {
      var k := 0;
      while k < |childNodes|
        invariant 0 <= k <= |childNodes|
        invariant isChecked == old(isChecked) && events == old(events)
        invariant forall m :: m in Nodes && m != this ==>
          if m in old(ReachedNodesBelow(k)) then m.isChecked == value && Notified(old(m.events), m.events, m.hasSubscriber)
          else m.isChecked == old(m.isChecked) && m.events == old(m.events)
        invariant forall i :: i in Items ==>
          if i in old(ReachedItemsBelow(k)) then i.isChecked == value && Notified(old(i.events), i.events, i.hasSubscriber)
          else i.isChecked == old(i.isChecked) && i.events == old(i.events)
      {
        ghost var step := old(childNodes[k].ReachedNodes());
        ghost var stepItems := old(childNodes[k].ReachedItems());
        label Before:
        CascadeToChild(k, value, step, stepItems);
        forall m | m in Nodes && m != this && m in old(ReachedNodesBelow(k)) && m in step
          ensures Notified(old(m.events), m.events, m.hasSubscriber)
        {
          NotifiedAgain(old(m.events), old@Before(m.events), m.events, m.hasSubscriber);
        }
        forall i | i in Items && i in old(ReachedItemsBelow(k)) && i in stepItems
          ensures Notified(old(i.events), i.events, i.hasSubscriber)
        {
          NotifiedAgain(old(i.events), old@Before(i.events), i.events, i.hasSubscriber);
        }
        k := k + 1;
      }
    }

    /**
     * One step of that `ForEach`: the setter of child `k`, which reaches `reach` and
     * `reachItems`.
     */
    method CascadeToChild(k: nat, value: bool, ghost reach: set<ObservableNode<T>>, ghost reachItems: set<ObservableItem<T>>)
      requires Valid() && k < |childNodes|
      requires reach == childNodes[k].ReachedNodes() && reachItems == childNodes[k].ReachedItems()
      modifies Nodes`isChecked, Nodes`events, Items`isChecked, Items`events
      decreases height, 0
      ensures isChecked == old(isChecked) && events == old(events)
      ensures forall m :: m in Nodes && m != this ==>
        if m in reach then m.isChecked == value && Notified(old(m.events), m.events, m.hasSubscriber)
        else m.isChecked == old(m.isChecked) && m.events == old(m.events)
      ensures forall i :: i in Items ==>
        if i in reachItems then i.isChecked == value && Notified(old(i.events), i.events, i.hasSubscriber)
        else i.isChecked == old(i.isChecked) && i.events == old(i.events)
    {
      childNodes[k].SetIsChecked(value);
    }

    /**
     * The `ForEach` over `ChildItems`: each item's `IsChecked` setter, in list order, so each
     * child item gets one `IsChecked` notification per occurrence in the list.
     */
    method CascadeToChildItems(value: bool)
      modifies ObservableItemUtilities.Members(childItems)`isChecked, ObservableItemUtilities.Members(childItems)`events
      ensures forall i :: i in childItems ==>
        i.isChecked == value &&
        i.events == old(i.events) + ObservableItemUtilities.Repeat(Notification(i.hasSubscriber, IsChecked),
                                                                   ObservableItemUtilities.Count(childItems, i))
    {
      for k := 0 to |childItems|
        invariant forall i :: i in childItems ==>
          i.isChecked == (if ObservableItemUtilities.Count(childItems[..k], i) > 0 then value else old(i.isChecked))
        invariant forall i :: i in childItems ==>
          i.events == old(i.events) + ObservableItemUtilities.Repeat(Notification(i.hasSubscriber, IsChecked),
                                                                     ObservableItemUtilities.Count(childItems[..k], i))
      {
        var item := childItems[k];
        label Before:
        item.SetIsChecked(value);
        assert childItems[..k + 1][..k] == childItems[..k];
        forall i | i in childItems
          ensures i.isChecked == (if ObservableItemUtilities.Count(childItems[..k + 1], i) > 0 then value else old(i.isChecked))
          ensures i.events == old(i.events)
            + ObservableItemUtilities.Repeat(Notification(i.hasSubscriber, IsChecked), ObservableItemUtilities.Count(childItems[..k + 1], i))
        {
          var n := ObservableItemUtilities.Count(childItems[..k], i);
          assert ObservableItemUtilities.Count(childItems[..k + 1], i) == n + (if i == item then 1 else 0);
          assert i.isChecked == (if i == item then value else old@Before(i.isChecked));
          ObservableItemUtilities.LogStep(old(i.events), old@Before(i.events), i.events,
            Notification(i.hasSubscriber, IsChecked), n, i == item);
        }
      }
      assert childItems[..|childItems|] == childItems;
      forall i | i in childItems
        ensures ObservableItemUtilities.Count(childItems, i) > 0
      {
        ObservableItemUtilities.CountIsMultiplicity(childItems, i);
      }
    }

    /** What child `j` reaches is reached through the first `k > j` children. */
    lemma {:induction false} ReachedThroughChild(k: nat, j: nat)
      requires Valid() && j < k <= |childNodes|
      ensures childNodes[j].ReachedNodes() <= ReachedNodesBelow(k)
      ensures childNodes[j].ReachedItems() <= ReachedItemsBelow(k)
      decreases k
    {
      if j < k - 1 {
        ReachedThroughChild(k - 1, j);
      }
    }

    /** Everything reached through the first `k` children is reached through one of them. */
    lemma {:induction false} ReachedByOneChild(k: nat)
      requires Valid() && k <= |childNodes|
      ensures forall m :: m in ReachedNodesBelow(k) ==>
        exists j :: 0 <= j < k && m in childNodes[j].ReachedNodes()
      ensures forall i :: i in ReachedItemsBelow(k) ==>
        exists j :: 0 <= j < k && i in childNodes[j].ReachedItems()
      decreases k
    {
      if k > 0 {
        ReachedByOneChild(k - 1);
      }
    }

    /** With a subscriber, a change reaches every direct child node and child item. */
    lemma DirectChildrenReached()
      requires Valid() && hasSubscriber
      ensures forall n :: n in childNodes ==> n in ReachedNodes()
      ensures forall i :: i in childItems ==> i in ReachedItems()
    {
      forall n | n in childNodes
        ensures n in ReachedNodes()
      {
        var j :| 0 <= j < |childNodes| && childNodes[j] == n;
        ReachedThroughChild(|childNodes|, j);
      }
    }

    /**
     * The items a change reaches are exactly the child items of the reached nodes that have
     * a subscriber: the cascade enters a node's children only through its handler.
     */
    lemma {:induction false} ReachedItemsAreThoseOfSubscribedNodes()
      requires Valid()
      ensures forall i :: i in ReachedItems() <==>
        exists m :: m in ReachedNodes() && m.hasSubscriber && i in m.childItems
      decreases height
    {
      if hasSubscriber {
        ReachedByOneChild(|childNodes|);
        forall i | i in ReachedItems()
          ensures exists m :: m in ReachedNodes() && m.hasSubscriber && i in m.childItems
        {
          if i !in childItems {
            assert i in ReachedItemsBelow(|childNodes|);
            var j :| 0 <= j < |childNodes| && i in childNodes[j].ReachedItems();
            childNodes[j].ReachedItemsAreThoseOfSubscribedNodes();
            var m :| m in childNodes[j].ReachedNodes() && m.hasSubscriber && i in m.childItems;
            ReachedThroughChild(|childNodes|, j);
            assert m in ReachedNodes();
          } else {
            assert this in ReachedNodes();
          }
        }
        forall i, m | m in ReachedNodes() && m.hasSubscriber && i in m.childItems
          ensures i in ReachedItems()
        {
          if m != this {
            assert m in ReachedNodesBelow(|childNodes|);
            var j :| 0 <= j < |childNodes| && m in childNodes[j].ReachedNodes();
            childNodes[j].ReachedItemsAreThoseOfSubscribedNodes();
            ReachedThroughChild(|childNodes|, j);
          }
        }
      }
    }
  }
}
