/**
 * `ObservableNodeUtilities<T>`: bulk changes of node flags and the construction of the
 * section/subsection node tree shown in the plug-in windows.
 */
module ObservableNodeUtilities {
  import opened Wrappers
  import opened ObservableItems
  import opened ObservableNodes
  import opened NodeTree
  import ObservableItemUtilities

  /**
   * `IsCheckedChange` (on items, as in the item utilities): every listed item ends with
   * `isChecked == requiredValue`, each having raised one notification per occurrence.
   */
  method IsCheckedChange<T>(observableItems: seq<ObservableItem<T>>, requiredValue: bool)
    modifies ObservableItemUtilities.Members(observableItems)`isChecked
    modifies ObservableItemUtilities.Members(observableItems)`events
    ensures forall i :: i in observableItems ==> i.isChecked == requiredValue
    ensures forall i :: i in observableItems ==>
      i.events == old(i.events) + ObservableItemUtilities.Repeat(Notification(i.hasSubscriber, IsChecked),
        ObservableItemUtilities.Count(observableItems, i))
  {
    ObservableItemUtilities.IsCheckedChange(observableItems, requiredValue);
  }

  // Toggling a selection of nodes.

  /** Every node a selected node's change may touch. */
  ghost function NodeFootprint<T>(selection: seq<ObservableNode<T>>): set<ObservableNode<T>>
    reads selection`Nodes
  {
    set n, m | n in selection && m in n.Nodes :: m
  }

  /** Every item a selected node's change may touch. */
  ghost function ItemFootprint<T>(selection: seq<ObservableNode<T>>): set<ObservableItem<T>>
    reads selection`Items
  {
    set n, i | n in selection && i in n.Items :: i
  }

  /** The selected subtrees share no node and no item. */
  ghost predicate Separate<T>(selection: seq<ObservableNode<T>>)
    reads selection`Nodes, selection`Items
  {
    forall j, k :: 0 <= j < k < |selection| ==>
      selection[j].Nodes !! selection[k].Nodes && selection[j].Items !! selection[k].Items
  }

  /**
   * `SelectionIsCheckedToggle`: each selected node is set to the negation of its flag, through
   * the `IsChecked` setter and so with its cascade.  When the selected subtrees are separate,
   * every selected node ends negated with one `IsChecked` notification in its log, everything
   * its change reaches takes that value and is notified, and the rest of its subtree keeps its
   * flag and log; a null or empty selection changes nothing.
   */
  method SelectionIsCheckedToggle<T>(selectedNodes: Option<seq<ObservableNode<T>>>)
    requires selectedNodes.Some? ==> forall n :: n in selectedNodes.value ==> n.Valid()
    modifies (if selectedNodes.Some? then NodeFootprint(selectedNodes.value) else {})`isChecked
    modifies (if selectedNodes.Some? then NodeFootprint(selectedNodes.value) else {})`events
    modifies (if selectedNodes.Some? then ItemFootprint(selectedNodes.value) else {})`isChecked
    modifies (if selectedNodes.Some? then ItemFootprint(selectedNodes.value) else {})`events
    ensures selectedNodes.Some? && Separate(selectedNodes.value) ==>
      forall k :: 0 <= k < |selectedNodes.value| ==>
        && selectedNodes.value[k].isChecked == !old(selectedNodes.value[k].isChecked)
        && selectedNodes.value[k].events ==
           old(selectedNodes.value[k].events) + Notification(selectedNodes.value[k].hasSubscriber, IsChecked)
    ensures selectedNodes.Some? && Separate(selectedNodes.value) ==>
      forall k, m {:trigger m in selectedNodes.value[k].Nodes} :: 0 <= k < |selectedNodes.value| && m in selectedNodes.value[k].Nodes ==>
        if m in old(selectedNodes.value[k].ReachedNodes())
        then m.isChecked == !old(selectedNodes.value[k].isChecked) && Notified(old(m.events), m.events, m.hasSubscriber)
        else m.isChecked == old(m.isChecked) && m.events == old(m.events)
    ensures selectedNodes.Some? && Separate(selectedNodes.value) ==>
      forall k, i {:trigger i in selectedNodes.value[k].Items} :: 0 <= k < |selectedNodes.value| && i in selectedNodes.value[k].Items ==>
        if i in old(selectedNodes.value[k].ReachedItems())
        then i.isChecked == !old(selectedNodes.value[k].isChecked) && Notified(old(i.events), i.events, i.hasSubscriber)
        else i.isChecked == old(i.isChecked) && i.events == old(i.events)
  {
    if selectedNodes.Some? && |selectedNodes.value| > 0 {
      var selection := selectedNodes.value;
      ghost var reached, reachedItems, nodeFlags, nodeLogs, itemFlags, itemLogs := ToggleEachNode(selection);
      if Separate(selection) {
        NodesToggled(selection, reached, nodeFlags, nodeLogs);
        ItemsToggled(selection, reachedItems, nodeFlags, itemFlags, itemLogs);
      }
    }
  }

  /** The nodes the change of each selected node reaches, in selection order. */
  ghost function ReachedBy<T>(selection: seq<ObservableNode<T>>): (r: seq<set<ObservableNode<T>>>)
    requires forall n :: n in selection ==> n.Valid()
    reads *
    ensures |r| == |selection| && forall j :: 0 <= j < |selection| ==> r[j] == selection[j].ReachedNodes()
  {
    if selection == [] then []
    else ReachedBy(selection[..|selection| - 1]) + [selection[|selection| - 1].ReachedNodes()]
  }

  /** The items the change of each selected node reaches, in selection order. */
  ghost function ItemsReachedBy<T>(selection: seq<ObservableNode<T>>): (r: seq<set<ObservableItem<T>>>)
    requires forall n :: n in selection ==> n.Valid()
    reads *
    ensures |r| == |selection| && forall j :: 0 <= j < |selection| ==> r[j] == selection[j].ReachedItems()
  {
    if selection == [] then []
    else ItemsReachedBy(selection[..|selection| - 1]) + [selection[|selection| - 1].ReachedItems()]
  }

  /**
   * The first `k` selected nodes have been toggled, measured against the flags and logs the
   * nodes had before (`nodeFlags`, `nodeLogs`): in subtree `j < k` what node `j` reaches
   * (`reached[j]`) holds the negation of node `j`'s former flag and has been notified, node
   * `j` itself exactly once; every other subtree node keeps its flag and log.
   */
  ghost predicate NodesToggledBelow<T>(selection: seq<ObservableNode<T>>, k: nat, reached: seq<set<ObservableNode<T>>>,
                                       nodeFlags: imap<ObservableNode<T>, bool>, nodeLogs: imap<ObservableNode<T>, seq<Property>>)
    reads *
  {
    && |reached| == |selection|
    && (forall j, m {:trigger m in selection[j].Nodes} :: 0 <= j < |selection| && m in selection[j].Nodes ==>
          && m in nodeFlags && m in nodeLogs && selection[j] in nodeFlags
          && if j < k && m in reached[j]
             then m.isChecked == !nodeFlags[selection[j]] && Notified(nodeLogs[m], m.events, m.hasSubscriber)
             else m.isChecked == nodeFlags[m] && m.events == nodeLogs[m])
    && (forall j :: 0 <= j < k && j < |selection| ==>
          selection[j] in nodeLogs &&
          selection[j].events == nodeLogs[selection[j]] + Notification(selection[j].hasSubscriber, IsChecked))
  }

  /** The same for the items, against their former flags and logs (`itemFlags`, `itemLogs`). */
  ghost predicate ItemsToggledBelow<T>(selection: seq<ObservableNode<T>>, k: nat, reachedItems: seq<set<ObservableItem<T>>>,
                                       nodeFlags: imap<ObservableNode<T>, bool>,
                                       itemFlags: imap<ObservableItem<T>, bool>, itemLogs: imap<ObservableItem<T>, seq<Property>>)
    reads *
  {
    && |reachedItems| == |selection|
    && forall j, i {:trigger i in selection[j].Items} :: 0 <= j < |selection| && i in selection[j].Items ==>
         && i in itemFlags && i in itemLogs && selection[j] in nodeFlags
         && if j < k && i in reachedItems[j]
            then i.isChecked == !nodeFlags[selection[j]] && Notified(itemLogs[i], i.events, i.hasSubscriber)
            else i.isChecked == itemFlags[i] && i.events == itemLogs[i]
  }

  /**
   * The loop of `SelectionIsCheckedToggle`, over a selection that is present.  Its results
   * record the state before: what each selected node's change reaches (`reached`,
   * `reachedItems`) and the former flags and logs of the nodes and items.
   */
  method ToggleEachNode<T>(selection: seq<ObservableNode<T>>)
    returns (ghost reached: seq<set<ObservableNode<T>>>, ghost reachedItems: seq<set<ObservableItem<T>>>,
             ghost nodeFlags: imap<ObservableNode<T>, bool>, ghost nodeLogs: imap<ObservableNode<T>, seq<Property>>,
             ghost itemFlags: imap<ObservableItem<T>, bool>, ghost itemLogs: imap<ObservableItem<T>, seq<Property>>)
    requires forall n :: n in selection ==> n.Valid()
    modifies NodeFootprint(selection)`isChecked, NodeFootprint(selection)`events
    modifies ItemFootprint(selection)`isChecked, ItemFootprint(selection)`events
    ensures forall j :: 0 <= j < |selection| ==>
      selection[j].Nodes == old(selection[j].Nodes) && selection[j].Items == old(selection[j].Items)
    ensures reached == old(ReachedBy(selection)) && reachedItems == old(ItemsReachedBy(selection))
    ensures nodeFlags == old(imap m: ObservableNode<T> :: m.isChecked) && nodeLogs == old(imap m: ObservableNode<T> :: m.events)
    ensures itemFlags == old(imap i: ObservableItem<T> :: i.isChecked) && itemLogs == old(imap i: ObservableItem<T> :: i.events)
    ensures Separate(selection) ==>
      && NodesToggledBelow(selection, |selection|, reached, nodeFlags, nodeLogs)
      && ItemsToggledBelow(selection, |selection|, reachedItems, nodeFlags, itemFlags, itemLogs)
  {
    ghost var separate := Separate(selection);
    reached := ReachedBy(selection);
    reachedItems := ItemsReachedBy(selection);
    nodeFlags := imap m: ObservableNode<T> :: m.isChecked;
    nodeLogs := imap m: ObservableNode<T> :: m.events;
    itemFlags := imap i: ObservableItem<T> :: i.isChecked;
    itemLogs := imap i: ObservableItem<T> :: i.events;
    NoneToggled(selection, reached, reachedItems);
    for k := 0 to |selection|
      invariant forall n :: n in selection ==> n.Valid()
      invariant forall j :: 0 <= j < |selection| ==>
        reached[j] == selection[j].ReachedNodes() && reachedItems[j] == selection[j].ReachedItems()
      invariant separate ==> NodesToggledBelow(selection, k, reached, nodeFlags, nodeLogs)
      invariant separate ==> ItemsToggledBelow(selection, k, reachedItems, nodeFlags, itemFlags, itemLogs)
    {
      assert selection[k] in selection;
      ToggleStep(selection, k, separate, reached, reachedItems, nodeFlags, nodeLogs, itemFlags, itemLogs);
    }
  }

  /**
   * A turn of the loop of `ToggleEachNode`: node `k` is toggled and, when the subtrees are
   * separate, the first `k + 1` selected nodes have then been toggled.
   */
  method ToggleStep<T>(selection: seq<ObservableNode<T>>, k: nat, ghost separate: bool,
                       ghost reached: seq<set<ObservableNode<T>>>, ghost reachedItems: seq<set<ObservableItem<T>>>,
                       ghost nodeFlags: imap<ObservableNode<T>, bool>, ghost nodeLogs: imap<ObservableNode<T>, seq<Property>>,
                       ghost itemFlags: imap<ObservableItem<T>, bool>, ghost itemLogs: imap<ObservableItem<T>, seq<Property>>)
    requires k < |selection| && forall n :: n in selection ==> n.Valid()
    requires separate ==> Separate(selection)
    requires |reached| == |reachedItems| == |selection|
    requires forall j :: 0 <= j < |selection| ==>
      reached[j] == selection[j].ReachedNodes() && reachedItems[j] == selection[j].ReachedItems()
    requires separate ==> NodesToggledBelow(selection, k, reached, nodeFlags, nodeLogs)
    requires separate ==> ItemsToggledBelow(selection, k, reachedItems, nodeFlags, itemFlags, itemLogs)
    modifies selection[k].Nodes`isChecked, selection[k].Nodes`events, selection[k].Items`isChecked, selection[k].Items`events
    ensures forall n :: n in selection ==> n.Valid()
    ensures forall j :: 0 <= j < |selection| ==>
      reached[j] == selection[j].ReachedNodes() && reachedItems[j] == selection[j].ReachedItems()
    ensures separate ==> NodesToggledBelow(selection, k + 1, reached, nodeFlags, nodeLogs)
    ensures separate ==> ItemsToggledBelow(selection, k + 1, reachedItems, nodeFlags, itemFlags, itemLogs)
  {
    assert selection[k] in selection;
    ItemsStepToggle(selection, k, separate, reached, reachedItems, nodeFlags, itemFlags, itemLogs);
  }

  /**
   * The items' side of a turn of the loop of `ToggleEachNode`: node `k` is toggled and, when
   * the subtrees are separate, the items of the first `k + 1` selected nodes have then been
   * toggled; of the nodes it promises what `ToggleNode` does.
   */
  method ItemsStepToggle<T>(selection: seq<ObservableNode<T>>, k: nat, ghost separate: bool,
                            ghost reached: seq<set<ObservableNode<T>>>, ghost reachedItems: seq<set<ObservableItem<T>>>,
                            ghost nodeFlags: imap<ObservableNode<T>, bool>,
                            ghost itemFlags: imap<ObservableItem<T>, bool>, ghost itemLogs: imap<ObservableItem<T>, seq<Property>>)
    requires k < |selection| && forall n :: n in selection ==> n.Valid()
    requires separate ==> Separate(selection)
    requires |reached| == |reachedItems| == |selection|
    requires forall j :: 0 <= j < |selection| ==>
      reached[j] == selection[j].ReachedNodes() && reachedItems[j] == selection[j].ReachedItems()
    requires separate ==> ItemsToggledBelow(selection, k, reachedItems, nodeFlags, itemFlags, itemLogs)
    requires separate ==> selection[k] in nodeFlags && nodeFlags[selection[k]] == selection[k].isChecked
    modifies selection[k].Nodes`isChecked, selection[k].Nodes`events, selection[k].Items`isChecked, selection[k].Items`events
    ensures forall n :: n in selection ==> n.Valid()
    ensures forall j :: 0 <= j < |selection| ==>
      reached[j] == selection[j].ReachedNodes() && reachedItems[j] == selection[j].ReachedItems()
    ensures forall m :: m in selection[k].Nodes ==>
      m.isChecked == if m in reached[k] then !old(selection[k].isChecked) else old(m.isChecked)
    ensures selection[k].events == old(selection[k].events) + Notification(selection[k].hasSubscriber, IsChecked)
    ensures forall m :: m in selection[k].Nodes ==>
      if m in reached[k] then Notified(old(m.events), m.events, m.hasSubscriber) else m.events == old(m.events)
    ensures separate ==> forall j, m {:trigger m in selection[j].Nodes} :: 0 <= j < |selection| && j != k && m in selection[j].Nodes ==>
      m.isChecked == old(m.isChecked) && m.events == old(m.events)
    ensures separate ==> ItemsToggledBelow(selection, k + 1, reachedItems, nodeFlags, itemFlags, itemLogs)
  {
    ToggleNode(selection, k, separate, selection[k].isChecked, reached[k], reachedItems[k]);
  }

  /** Before the loop nothing has been toggled, measured against the state as it is. */
  lemma NoneToggled<T>(selection: seq<ObservableNode<T>>, reached: seq<set<ObservableNode<T>>>,
                       reachedItems: seq<set<ObservableItem<T>>>)
    requires |reached| == |reachedItems| == |selection|
    ensures NodesToggledBelow(selection, 0, reached, imap m: ObservableNode<T> :: m.isChecked, imap m: ObservableNode<T> :: m.events)
    ensures ItemsToggledBelow(selection, 0, reachedItems, imap m: ObservableNode<T> :: m.isChecked,
                              imap i: ObservableItem<T> :: i.isChecked, imap i: ObservableItem<T> :: i.events)
  {
  }

  /** What `ToggleEachNode` promises of the nodes, restated against the state before it. */
  twostate lemma NodesToggled<T>(selection: seq<ObservableNode<T>>, new reached: seq<set<ObservableNode<T>>>,
                                 new nodeFlags: imap<ObservableNode<T>, bool>, new nodeLogs: imap<ObservableNode<T>, seq<Property>>)
    requires old(forall n :: n in selection ==> n.Valid())
    requires forall j :: 0 <= j < |selection| ==> selection[j].Nodes == old(selection[j].Nodes)
    requires reached == old(ReachedBy(selection))
    requires nodeFlags == old(imap m: ObservableNode<T> :: m.isChecked) && nodeLogs == old(imap m: ObservableNode<T> :: m.events)
    requires NodesToggledBelow(selection, |selection|, reached, nodeFlags, nodeLogs)
    ensures forall k :: 0 <= k < |selection| ==>
      selection[k].isChecked == !old(selection[k].isChecked) &&
      selection[k].events == old(selection[k].events) + Notification(selection[k].hasSubscriber, IsChecked)
    ensures forall k, m {:trigger m in selection[k].Nodes} :: 0 <= k < |selection| && m in selection[k].Nodes ==>
      if m in old(selection[k].ReachedNodes())
      then m.isChecked == !old(selection[k].isChecked) && Notified(old(m.events), m.events, m.hasSubscriber)
      else m.isChecked == old(m.isChecked) && m.events == old(m.events)
  {
    forall k | 0 <= k < |selection|
      ensures selection[k].isChecked == !old(selection[k].isChecked)
    {
      assert old(selection[k].Valid()) by {
        assert selection[k] in selection;
      }
      assert selection[k] in selection[k].Nodes && selection[k] in old(selection[k].ReachedNodes());
    }
  }

  /** What `ToggleEachNode` promises of the items, restated against the state before it. */
  twostate lemma ItemsToggled<T>(selection: seq<ObservableNode<T>>, new reachedItems: seq<set<ObservableItem<T>>>,
                                 new nodeFlags: imap<ObservableNode<T>, bool>,
                                 new itemFlags: imap<ObservableItem<T>, bool>, new itemLogs: imap<ObservableItem<T>, seq<Property>>)
    requires old(forall n :: n in selection ==> n.Valid())
    requires forall j :: 0 <= j < |selection| ==> selection[j].Items == old(selection[j].Items)
    requires reachedItems == old(ItemsReachedBy(selection))
    requires nodeFlags == old(imap m: ObservableNode<T> :: m.isChecked)
    requires itemFlags == old(imap i: ObservableItem<T> :: i.isChecked) && itemLogs == old(imap i: ObservableItem<T> :: i.events)
    requires ItemsToggledBelow(selection, |selection|, reachedItems, nodeFlags, itemFlags, itemLogs)
    ensures forall k, i {:trigger i in selection[k].Items} :: 0 <= k < |selection| && i in selection[k].Items ==>
      if i in old(selection[k].ReachedItems())
      then i.isChecked == !old(selection[k].isChecked) && Notified(old(i.events), i.events, i.hasSubscriber)
      else i.isChecked == old(i.isChecked) && i.events == old(i.events)
  {
  }

  /**
   * One turn of the loop of `ToggleEachNode`: node `k`, whose flag is `wasChecked`, is
   * toggled.  What it reaches (`reach` and `reachItems`) takes the new value `!wasChecked` and
   * the rest of its subtree keeps its flag; when the subtrees are separate, the other subtrees
   * stay as they were.
   */
  method ToggleNode<T>(selection: seq<ObservableNode<T>>, k: nat, ghost separate: bool, ghost wasChecked: bool,
                       ghost reach: set<ObservableNode<T>>, ghost reachItems: set<ObservableItem<T>>)
    requires k < |selection| && forall n :: n in selection ==> n.Valid()
    requires separate ==> Separate(selection)
    requires wasChecked == selection[k].isChecked
    requires reach == selection[k].ReachedNodes() && reachItems == selection[k].ReachedItems()
    modifies selection[k].Nodes`isChecked, selection[k].Nodes`events, selection[k].Items`isChecked, selection[k].Items`events
    ensures forall n :: n in selection ==> n.Valid()
    ensures forall j :: 0 <= j < |selection| ==>
      selection[j].ReachedNodes() == old(selection[j].ReachedNodes()) &&
      selection[j].ReachedItems() == old(selection[j].ReachedItems())
    ensures forall m :: m in selection[k].Nodes ==>
      m.isChecked == if m in reach then !wasChecked else old(m.isChecked)
    ensures forall i :: i in selection[k].Items ==>
      i.isChecked == if i in reachItems then !wasChecked else old(i.isChecked)
    ensures selection[k].events == old(selection[k].events) + Notification(selection[k].hasSubscriber, IsChecked)
    ensures forall m :: m in selection[k].Nodes ==>
      if m in reach then Notified(old(m.events), m.events, m.hasSubscriber) else m.events == old(m.events)
    ensures forall i :: i in selection[k].Items ==>
      if i in reachItems then Notified(old(i.events), i.events, i.hasSubscriber) else i.events == old(i.events)
    ensures separate ==> forall j, m {:trigger m in selection[j].Nodes} :: 0 <= j < |selection| && j != k && m in selection[j].Nodes ==>
      m.isChecked == old(m.isChecked) && m.events == old(m.events)
    ensures separate ==> forall j, i {:trigger i in selection[j].Items} :: 0 <= j < |selection| && j != k && i in selection[j].Items ==>
      i.isChecked == old(i.isChecked) && i.events == old(i.events)
  {
    var node := selection[k];
    node.SetIsChecked(!node.isChecked);
    if separate {
      forall j, m | 0 <= j < |selection| && j != k && m in selection[j].Nodes
        ensures m.isChecked == old(m.isChecked) && m.events == old(m.events)
      {
        if j < k {
          assert selection[j].Nodes !! node.Nodes;
        } else {
          assert node.Nodes !! selection[j].Nodes;
        }
      }
      forall j, i | 0 <= j < |selection| && j != k && i in selection[j].Items
        ensures i.isChecked == old(i.isChecked) && i.events == old(i.events)
      {
        if j < k {
          assert selection[j].Items !! node.Items;
        } else {
          assert node.Items !! selection[j].Items;
        }
      }
    }
  }

  // Building the section/subsection tree.

  /** The names of `nodes`, in order. */
  function NodeNames<T>(nodes: seq<ObservableNode<T>>): (r: seq<string>)
    reads nodes
    ensures |r| == |nodes| && forall j :: 0 <= j < |nodes| ==> r[j] == nodes[j].name
  {
    if nodes == [] then [] else NodeNames(nodes[..|nodes| - 1]) + [nodes[|nodes| - 1].name]
  }

  /** `n` is a freshly created node named `name` holding `item` alone. */
  ghost predicate SingleItemNode<T>(n: ObservableNode<T>, name: string, item: ObservableItem<T>)
    reads n
  {
    && n.name == name && n.childItems == [item] && n.childNodes == [] && !n.isChecked && !n.hasSubscriber
    && n.Nodes == {n} && n.Items == {item} && n.height == 0
  }

  /**
   * `AddItemToNode`: the item goes to the first node named `section`, or to a new node of
   * that name appended to the list when there is none.  No other node changes.
   */
  method AddItemToNode<T>(nodes: seq<ObservableNode<T>>, observableItem: ObservableItem<T>, section: string)
    returns (result: seq<ObservableNode<T>>, ghost found: Option<nat>)
    modifies (set n | n in nodes)`childItems, (set n | n in nodes)`Items
    ensures found == FindFirst(old(NodeNames(nodes)), section)
    ensures forall n: ObservableNode<T> :: old(allocated(n)) && n !in nodes ==> unchanged(n)
    ensures found.Some? ==>
      && result == nodes
      && nodes[found.value].childItems == old(nodes[found.value].childItems) + [observableItem]
      && nodes[found.value].Items == old(nodes[found.value].Items) + {observableItem}
      && nodes[found.value].name == old(nodes[found.value].name) && nodes[found.value].childNodes == old(nodes[found.value].childNodes)
      && nodes[found.value].isChecked == old(nodes[found.value].isChecked) && nodes[found.value].hasSubscriber == old(nodes[found.value].hasSubscriber)
      && nodes[found.value].Nodes == old(nodes[found.value].Nodes) && nodes[found.value].height == old(nodes[found.value].height)
      && forall n :: n in nodes && n != nodes[found.value] ==> unchanged(n)
    ensures found.None? ==>
      && |result| == |nodes| + 1 && result == nodes + [result[|nodes|]]
      && fresh(result[|nodes|]) && SingleItemNode(result[|nodes|], section, observableItem)
      && forall n :: n in nodes ==> unchanged(n)
  {
    var index := FindFirst(NodeNames(nodes), section);
    found := index;
    if index.Some? {
      nodes[index.value].AddChildItem(observableItem);
      result := nodes;
    } else {
      var node := new ObservableNode(section);
      node.AddChildItem(observableItem);
      result := nodes + [node];
    }
  }

  /** Node `n` shows the subsection `s`: its name and items, no child node, unchecked. */
  ghost predicate ShowsSubGroup<T>(n: ObservableNode<T>, s: SubGroup<T>)
    reads n
  {
    && n.name == s.name && n.childItems == s.items && n.childNodes == []
    && !n.isChecked && !n.hasSubscriber && n.Nodes == {n} && n.height == 0
    && forall i :: i in n.childItems ==> i in n.Items
  }

  /** Node `n` shows the section `g`: its name and items, one child node per subsection. */
  ghost predicate ShowsGroup<T>(n: ObservableNode<T>, g: Group<T>)
    reads n, n.childNodes
  {
    && n.name == g.name && n.childItems == g.items && !n.isChecked && !n.hasSubscriber
    && ShowsSubGroups(n.childNodes, g.subGroups)
  }

  /** Node `nodes[k]` shows subsection `subs[k]`, for every `k`. */
  ghost predicate ShowsSubGroups<T>(nodes: seq<ObservableNode<T>>, subs: seq<SubGroup<T>>)
    reads nodes
  {
    && |nodes| == |subs|
    && forall k :: 0 <= k < |subs| ==> ShowsSubGroup(nodes[k], subs[k])
  }

  /** The node list shows the tree value `groups`, one top-level node per section. */
  ghost predicate Shows<T>(nodes: seq<ObservableNode<T>>, groups: seq<Group<T>>)
    reads nodes, set j, i | 0 <= j < |nodes| && 0 <= i < |nodes[j].childNodes| :: nodes[j].childNodes[i]
  {
    && |nodes| == |groups|
    && forall j :: 0 <= j < |nodes| ==> ShowsGroup(nodes[j], groups[j])
  }

  /**
   * The footprints of a section node, stated without recursion: the node, its subsection
   * nodes and their items are in its own footprints, and it is higher than each subsection.
   */
  ghost predicate SectionNode<T>(n: ObservableNode<T>)
    reads n, n.childNodes
  {
    && n in n.Nodes
    && (forall i :: i in n.childItems ==> i in n.Items)
    && forall k :: 0 <= k < |n.childNodes| ==>
         var c := n.childNodes[k]; c in n.Nodes && c != n && c.Items <= n.Items && c.height < n.height
  }

  /** A node without child nodes whose footprints are its own is a valid tree. */
  lemma LeafIsValid<T>(n: ObservableNode<T>)
    requires n.childNodes == [] && n.Nodes == {n} && forall i :: i in n.childItems ==> i in n.Items
    ensures n.Valid()
  {
  }

  /** A section node showing a section is a valid tree. */
  lemma SectionNodeIsValid<T>(n: ObservableNode<T>, g: Group<T>)
    requires SectionNode(n) && ShowsGroup(n, g)
    ensures n.Valid()
  {
    forall c | c in n.childNodes
      ensures c.Valid()
    {
      var k :| 0 <= k < |n.childNodes| && n.childNodes[k] == c;
      assert ShowsSubGroup(c, g.subGroups[k]);
      LeafIsValid(c);
    }
  }

  /** Every top-level node is a section node, and no two of them share a node. */
  ghost predicate Forest<T>(nodes: seq<ObservableNode<T>>)
    reads nodes, set j, i | 0 <= j < |nodes| && 0 <= i < |nodes[j].childNodes| :: nodes[j].childNodes[i]
  {
    && (forall j :: 0 <= j < |nodes| ==> SectionNode(nodes[j]))
    && (forall j, k :: 0 <= j < k < |nodes| ==> nodes[j].Nodes !! nodes[k].Nodes)
  }

  /** No name occurs twice. */
  ghost predicate DistinctNames(names: seq<string>)
  {
    forall j, k :: 0 <= j < k < |names| ==> names[j] != names[k]
  }

  /** Every node of the trees of `nodes`. */
  ghost function Footprint<T>(nodes: seq<ObservableNode<T>>): set<ObservableNode<T>>
    reads nodes
  {
    set n, m | n in nodes && m in n.Nodes :: m
  }

  /**
   * The branch of the loop of `CreateNodeTree` for an item with a subsection whose section
   * node exists: the item goes to that node's subsection node of that name, created if new.
   */
  method AddToSection<T>(node: ObservableNode<T>, observableItem: ObservableItem<T>, subSection: string,
                         ghost g: Group<T>)
    requires SectionNode(node) && ShowsGroup(node, g) && DistinctNames(SubNames(g.subGroups)) && subSection != ""
    modifies node.Nodes
    ensures SectionNode(node) && ShowsGroup(node, PlacedInto(g, Entry(observableItem, g.name, subSection)))
    ensures forall m :: m in node.Nodes ==> m in old(node.Nodes) || fresh(m)
    ensures forall n: ObservableNode<T> :: old(allocated(n)) && n !in old(node.Nodes) ==> unchanged(n)
  {
    ghost var subs := node.childNodes;
    assert node !in subs;
    var childNodes := AddToSubSections(node.childNodes, observableItem, subSection, g.subGroups, node.Items);
    ghost var placed := PlacedInto(g, Entry(observableItem, g.name, subSection));
    assert placed == g.(subGroups := AddToSubGroups(g.subGroups, observableItem, subSection));
    SetSubSections(node, childNodes, observableItem, placed);
  }

  /**
   * The field updates at the end of `AddToSection`: the section node takes the new subsection
   * list and the item, and the subsection node created for it, if any, joins its footprint.
   */
  method SetSubSections<T>(node: ObservableNode<T>, childNodes: seq<ObservableNode<T>>, observableItem: ObservableItem<T>,
                           ghost placed: Group<T>)
    requires node in node.Nodes && (forall i :: i in node.childItems ==> i in node.Items)
    requires node.name == placed.name && node.childItems == placed.items && !node.isChecked && !node.hasSubscriber
    requires ShowsSubGroups(childNodes, placed.subGroups) && node !in childNodes
    requires forall k :: 0 <= k < |childNodes| ==> childNodes[k].Items <= node.Items + {observableItem} && childNodes[k].height == 0
    requires |node.childNodes| <= |childNodes| <= |node.childNodes| + 1
    requires forall k :: 0 <= k < |node.childNodes| ==> childNodes[k] == node.childNodes[k] && node.childNodes[k] in node.Nodes
    modifies node
    ensures SectionNode(node) && ShowsGroup(node, placed)
    ensures |childNodes| == |old(node.childNodes)| ==> node.Nodes == old(node.Nodes)
    ensures |childNodes| > |old(node.childNodes)| ==> node.Nodes == old(node.Nodes) + {childNodes[|old(node.childNodes)|]}
  {
    if |childNodes| > |node.childNodes| {
      node.Nodes := node.Nodes + {childNodes[|node.childNodes|]};
    }
    node.childNodes := childNodes;
    node.Items := node.Items + {observableItem};
    node.height := 1;
  }

  /**
   * `AddItemToNode` on the subsection nodes of a section node: they come to show the
   * subsections `AddToSubGroups` gives, and nothing outside them changes.
   */
  method AddToSubSections<T>(subs: seq<ObservableNode<T>>, observableItem: ObservableItem<T>, subSection: string,
                             ghost gsubs: seq<SubGroup<T>>, ghost items: set<ObservableItem<T>>)
    returns (childNodes: seq<ObservableNode<T>>)
    requires ShowsSubGroups(subs, gsubs) && DistinctNames(SubNames(gsubs)) && subSection != ""
    requires forall c :: c in subs ==> c.Items <= items
    modifies (set n | n in subs)`childItems, (set n | n in subs)`Items
    ensures ShowsSubGroups(childNodes, AddToSubGroups(gsubs, observableItem, subSection))
    ensures forall k :: 0 <= k < |childNodes| ==> childNodes[k].Items <= items + {observableItem} && childNodes[k].height == 0
    ensures |subs| <= |childNodes| && |childNodes| <= |subs| + 1 && forall k :: 0 <= k < |subs| ==> childNodes[k] == subs[k]
    ensures |childNodes| > |subs| ==> fresh(childNodes[|subs|])
    ensures forall n: ObservableNode<T> :: old(allocated(n)) && n !in subs ==> unchanged(n)
  {
    ghost var found;
    childNodes, found := AddItemToNode(subs, observableItem, subSection);
    SubGroupsPlaced(subs, childNodes, observableItem, subSection, gsubs, items, found);
  }

  /** What `AddItemToNode` does to a list of subsection nodes is what `AddToSubGroups` does to the subsections. */
  twostate lemma SubGroupsPlaced<T>(subs: seq<ObservableNode<T>>, new result: seq<ObservableNode<T>>,
                                    new item: ObservableItem<T>, new subSection: string, new gsubs: seq<SubGroup<T>>,
                                    new items: set<ObservableItem<T>>, new found: Option<nat>)
    requires old(allocated(gsubs))
    requires old(ShowsSubGroups(subs, gsubs)) && DistinctNames(SubNames(gsubs)) && subSection != ""
    requires forall c :: c in subs ==> old(c.Items) <= items
    requires found == FindFirst(old(NodeNames(subs)), subSection)
    requires found.Some? ==>
      var j := found.value;
      && result == subs
      && subs[j].childItems == old(subs[j].childItems) + [item]
      && subs[j].Items == old(subs[j].Items) + {item}
      && subs[j].name == old(subs[j].name) && subs[j].childNodes == old(subs[j].childNodes)
      && subs[j].isChecked == old(subs[j].isChecked) && subs[j].hasSubscriber == old(subs[j].hasSubscriber)
      && subs[j].Nodes == old(subs[j].Nodes) && subs[j].height == old(subs[j].height)
      && forall n :: n in subs && n != subs[j] ==> unchanged(n)
    requires found.None? ==>
      && |result| == |subs| + 1 && result == subs + [result[|subs|]]
      && SingleItemNode(result[|subs|], subSection, item)
      && forall n :: n in subs ==> unchanged(n)
    ensures ShowsSubGroups(result, AddToSubGroups(gsubs, item, subSection))
    ensures forall k :: 0 <= k < |result| ==> result[k].Items <= items + {item} && result[k].height == 0
    ensures |subs| <= |result| && |result| <= |subs| + 1 && forall k :: 0 <= k < |subs| ==> result[k] == subs[k]
  {
    assert old(NodeNames(subs)) == SubNames(gsubs);
    if found.Some? {
      SubGroupFilled(subs, item, gsubs, items, found.value);
    } else {
      SubGroupOpened(subs, result, item, subSection, gsubs, items);
    }
  }

  /** The found case of `SubGroupsPlaced`: subsection node `j` receives the item. */
  twostate lemma SubGroupFilled<T>(subs: seq<ObservableNode<T>>, new item: ObservableItem<T>, new gsubs: seq<SubGroup<T>>,
                                   new items: set<ObservableItem<T>>, new j: nat)
    requires old(allocated(gsubs))
    requires old(ShowsSubGroups(subs, gsubs)) && DistinctNames(SubNames(gsubs))
    requires forall c :: c in subs ==> old(c.Items) <= items
    requires j < |subs|
    requires subs[j].childItems == old(subs[j].childItems) + [item]
    requires subs[j].Items == old(subs[j].Items) + {item}
    requires subs[j].name == old(subs[j].name) && subs[j].childNodes == old(subs[j].childNodes)
    requires subs[j].isChecked == old(subs[j].isChecked) && subs[j].hasSubscriber == old(subs[j].hasSubscriber)
    requires subs[j].Nodes == old(subs[j].Nodes) && subs[j].height == old(subs[j].height)
    requires forall n :: n in subs && n != subs[j] ==> unchanged(n)
    ensures ShowsSubGroups(subs, gsubs[j := gsubs[j].(items := gsubs[j].items + [item])])
    ensures forall k :: 0 <= k < |subs| ==> subs[k].Items <= items + {item} && subs[k].height == 0
  {
    var gsubs' := gsubs[j := gsubs[j].(items := gsubs[j].items + [item])];
    forall k | 0 <= k < |subs|
      ensures ShowsSubGroup(subs[k], gsubs'[k]) && subs[k].Items <= items + {item}
    {
      assert old(ShowsSubGroup(subs[k], gsubs[k])) && subs[k] in subs;
      if k != j {
        assert subs[k] != subs[j] by {
          if k < j { assert SubNames(gsubs)[k] != SubNames(gsubs)[j]; }
          else { assert SubNames(gsubs)[j] != SubNames(gsubs)[k]; }
        }
      }
    }
  }

  /** The not-found case of `SubGroupsPlaced`: a new subsection node comes last. */
  twostate lemma SubGroupOpened<T>(subs: seq<ObservableNode<T>>, new result: seq<ObservableNode<T>>,
                                   new item: ObservableItem<T>, new subSection: string, new gsubs: seq<SubGroup<T>>,
                                   new items: set<ObservableItem<T>>)
    requires old(allocated(gsubs))
    requires old(ShowsSubGroups(subs, gsubs))
    requires forall c :: c in subs ==> old(c.Items) <= items
    requires |result| == |subs| + 1 && result == subs + [result[|subs|]]
    requires SingleItemNode(result[|subs|], subSection, item)
    requires forall n :: n in subs ==> unchanged(n)
    ensures ShowsSubGroups(result, gsubs + [SubGroup(subSection, [item])])
    ensures forall k :: 0 <= k < |result| ==> result[k].Items <= items + {item} && result[k].height == 0
  {
    forall k | 0 <= k < |subs|
      ensures ShowsSubGroup(result[k], gsubs[k]) && result[k].Items <= items
    {
      assert result[k] == subs[k] && subs[k] in subs;
      assert old(ShowsSubGroup(subs[k], gsubs[k]));
    }
  }

  /**
   * The branch of the loop of `CreateNodeTree` for an item with a subsection whose section
   * node does not exist: a new section node holding a new subsection node holding the item.
   */
  method NewSection<T>(observableItem: ObservableItem<T>, section: string, subSection: string)
    returns (node: ObservableNode<T>)
    requires subSection != ""
    ensures fresh(node.Nodes) && SectionNode(node)
    ensures ShowsGroup(node, NewGroup(Entry(observableItem, section, subSection)))
  {
    node := new ObservableNode(section);
    var subNode := new ObservableNode(subSection);
    subNode.AddChildItem(observableItem);
    assert subNode.Valid() && node !in subNode.Nodes;
    node.AddChildNode(subNode);
    assert node.Nodes == {node, subNode};
    assert ShowsSubGroup(subNode, SubGroup(subSection, [observableItem]));
  }

  /** The node list is a forest of section nodes showing the tree value `groups`. */
  ghost predicate Builds<T>(nodes: seq<ObservableNode<T>>, groups: seq<Group<T>>)
    reads nodes, set j, i | 0 <= j < |nodes| && 0 <= i < |nodes[j].childNodes| :: nodes[j].childNodes[i]
  {
    Forest(nodes) && Shows(nodes, groups)
  }

  /** Section names are distinct, and so are the subsection names within each section. */
  ghost predicate WellNamed<T>(groups: seq<Group<T>>)
  {
    && DistinctNames(Names(groups))
    && forall j :: 0 <= j < |groups| ==> DistinctNames(SubNames(groups[j].subGroups))
  }

  /** Every node of the trees of `nodes` is in `pool`. */
  ghost predicate InPool<T>(nodes: seq<ObservableNode<T>>, pool: set<ObservableNode<T>>)
    reads nodes
  {
    forall k :: 0 <= k < |nodes| ==> nodes[k].Nodes <= pool
  }

  /** The nodes of the section node `result` appends to `nodes`, if any. */
  ghost function Added<T>(nodes: seq<ObservableNode<T>>, result: seq<ObservableNode<T>>): set<ObservableNode<T>>
    reads result
  {
    if |result| <= |nodes| then {} else result[|nodes|].Nodes
  }

  /**
   * One pass of the loop of `CreateNodeTree`: the item, whose entry is `es[k]`, goes where
   * `Place` puts that entry, so the nodes showing the tree of the first `k` entries come to
   * show the tree of the first `k + 1`.
   */
  method PlaceItem<T>(nodes: seq<ObservableNode<T>>, observableItem: ObservableItem<T>, ghost es: seq<Entry<T>>,
                      ghost k: nat, ghost pool: set<ObservableNode<T>>)
    returns (result: seq<ObservableNode<T>>, ghost added: set<ObservableNode<T>>)
    requires k < |es| && es[k] == EntryOf(observableItem)
    requires Builds(nodes, Tree(es[..k])) && InPool(nodes, pool)
    modifies pool
    ensures Builds(result, Tree(es[..k + 1]))
    ensures fresh(added) && InPool(result, pool + added)
  {
    TreeNamesDistinct(es[..k]);
    TreeSnoc(es, k);
    ghost var groups := Tree(es[..k]);
    var section := if observableItem.section == None then "" else observableItem.section.value;
    var subSection := if observableItem.subSection == None then "" else observableItem.subSection.value;
    assert es[k] == Entry(observableItem, section, subSection);
    if subSection == "" {
      result, added := PlaceAtTop(nodes, observableItem, section, groups, pool);
    } else {
      result, added := PlaceInSection(nodes, observableItem, section, subSection, groups, pool);
    }
  }

  /** The branch of `PlaceItem` for an item without subsection: `AddItemToNode` on the section nodes. */
  method PlaceAtTop<T>(nodes: seq<ObservableNode<T>>, observableItem: ObservableItem<T>, section: string,
                       ghost groups: seq<Group<T>>, ghost pool: set<ObservableNode<T>>)
    returns (result: seq<ObservableNode<T>>, ghost added: set<ObservableNode<T>>)
    requires Builds(nodes, groups) && WellNamed(groups) && InPool(nodes, pool)
    modifies pool
    ensures Builds(result, Place(groups, Entry(observableItem, section, "")))
    ensures fresh(added) && InPool(result, pool + added)
  {
    ghost var found;
    result, found := AddItemToNode(nodes, observableItem, section);
    TopItemPlaced(nodes, result, observableItem, section, groups, found, pool);
    added := Added(nodes, result);
  }

  /** The branch of `PlaceItem` for an item with a subsection: found or new section node, then its subsection. */
  method PlaceInSection<T>(nodes: seq<ObservableNode<T>>, observableItem: ObservableItem<T>, section: string,
                           subSection: string, ghost groups: seq<Group<T>>, ghost pool: set<ObservableNode<T>>)
    returns (result: seq<ObservableNode<T>>, ghost added: set<ObservableNode<T>>)
    requires Builds(nodes, groups) && WellNamed(groups) && InPool(nodes, pool) && subSection != ""
    modifies pool
    ensures Builds(result, Place(groups, Entry(observableItem, section, subSection)))
    ensures fresh(added) && InPool(result, pool + added)
  {
    assert NodeNames(nodes) == Names(groups);
    var found := FindFirst(NodeNames(nodes), section);
    if found.Some? {
      assert SectionNode(nodes[found.value]);
      AddToSection(nodes[found.value], observableItem, subSection, groups[found.value]);
      result := nodes;
      added := nodes[found.value].Nodes - old(nodes[found.value].Nodes);
      SectionFilled(nodes, observableItem, section, subSection, groups, found.value, pool, added);
    } else {
      var node := NewSection(observableItem, section, subSection);
      result := nodes + [node];
      SectionOpened(nodes, result, observableItem, section, subSection, groups, pool);
      added := node.Nodes;
    }
  }

  /** The `AddItemToNode` branch of `PlaceItem`, on the top-level section nodes. */
  twostate lemma TopItemPlaced<T>(nodes: seq<ObservableNode<T>>, new result: seq<ObservableNode<T>>,
                                  new item: ObservableItem<T>, new section: string, new groups: seq<Group<T>>, new found: Option<nat>,
                                  new pool: set<ObservableNode<T>>)
    requires old(allocated(groups)) && old(allocated(pool))
    requires old(Builds(nodes, groups)) && DistinctNames(Names(groups)) && old(InPool(nodes, pool))
    requires found == FindFirst(old(NodeNames(nodes)), section)
    requires forall n: ObservableNode<T> :: old(allocated(n)) && n !in nodes ==> unchanged(n)
    requires found.Some? ==>
      var j := found.value;
      && result == nodes
      && nodes[j].childItems == old(nodes[j].childItems) + [item]
      && nodes[j].Items == old(nodes[j].Items) + {item}
      && nodes[j].name == old(nodes[j].name) && nodes[j].childNodes == old(nodes[j].childNodes)
      && nodes[j].isChecked == old(nodes[j].isChecked) && nodes[j].hasSubscriber == old(nodes[j].hasSubscriber)
      && nodes[j].Nodes == old(nodes[j].Nodes) && nodes[j].height == old(nodes[j].height)
      && forall n :: n in nodes && n != nodes[j] ==> unchanged(n)
    requires found.None? ==>
      && |result| == |nodes| + 1 && result == nodes + [result[|nodes|]]
      && SingleItemNode(result[|nodes|], section, item)
      && fresh(result[|nodes|])
      && forall n :: n in nodes ==> unchanged(n)
    ensures Builds(result, Place(groups, Entry(item, section, "")))
    ensures fresh(Added(nodes, result)) && InPool(result, pool + Added(nodes, result))
  {
    ChildrenUnchanged(nodes);
    assert old(NodeNames(nodes)) == Names(groups);
    if found.Some? {
      TopItemFilled(nodes, result, item, section, groups, found.value, pool);
    } else {
      TopItemOpened(nodes, result, item, section, groups, pool);
    }
  }

  /** The `AddToSection` branch of `PlaceItem`: section node `j` takes the item, the others stay. */
  twostate lemma SectionFilled<T>(nodes: seq<ObservableNode<T>>, new item: ObservableItem<T>, new section: string,
                                  new subSection: string, new groups: seq<Group<T>>, new j: nat, new pool: set<ObservableNode<T>>,
                                  new added: set<ObservableNode<T>>)
    requires old(allocated(groups)) && old(allocated(pool))
    requires old(Builds(nodes, groups)) && old(InPool(nodes, pool)) && subSection != ""
    requires FindFirst(Names(groups), section).Some? && FindFirst(Names(groups), section).value == j && j < |nodes|
    requires SectionNode(nodes[j]) && ShowsGroup(nodes[j], PlacedInto(groups[j], Entry(item, groups[j].name, subSection)))
    requires forall m :: m in nodes[j].Nodes ==> m in old(nodes[j].Nodes) || fresh(m)
    requires forall n: ObservableNode<T> :: old(allocated(n)) && n !in old(nodes[j].Nodes) ==> unchanged(n)
    requires added == nodes[j].Nodes - old(nodes[j].Nodes)
    ensures Builds(nodes, Place(groups, Entry(item, section, subSection)))
    ensures fresh(added) && InPool(nodes, pool + added)
  {
    PlaceFills(groups, Entry(item, section, subSection), j);
    forall k | 0 <= k < |nodes| && k != j
      ensures SectionNode(nodes[k]) && ShowsGroup(nodes[k], groups[k]) && nodes[k].Nodes == old(nodes[k].Nodes)
    {
      assert old(SectionNode(nodes[k])) && old(ShowsGroup(nodes[k], groups[k]));
      if k < j { assert old(nodes[k].Nodes !! nodes[j].Nodes); }
      else { assert old(nodes[j].Nodes !! nodes[k].Nodes); }
      assert nodes[k] !in old(nodes[j].Nodes);
      forall i | 0 <= i < |nodes[k].childNodes|
        ensures unchanged(nodes[k].childNodes[i])
      {
        assert nodes[k].childNodes[i] in old(nodes[k].Nodes);
      }
    }
  }

  /** The `NewSection` branch of `PlaceItem`: a new section node comes last, the others stay. */
  twostate lemma SectionOpened<T>(nodes: seq<ObservableNode<T>>, new result: seq<ObservableNode<T>>,
                                  new item: ObservableItem<T>, new section: string, new subSection: string, new groups: seq<Group<T>>,
                                  new pool: set<ObservableNode<T>>)
    requires old(allocated(groups)) && old(allocated(pool))
    requires old(Builds(nodes, groups)) && old(InPool(nodes, pool)) && subSection != ""
    requires FindFirst(Names(groups), section).None?
    requires |result| == |nodes| + 1 && result == nodes + [result[|nodes|]]
    requires fresh(result[|nodes|].Nodes) && SectionNode(result[|nodes|])
    requires ShowsGroup(result[|nodes|], NewGroup(Entry(item, section, subSection)))
    requires forall k :: 0 <= k < |nodes| ==> unchanged(nodes[k]) && unchanged(old(nodes[k].childNodes))
    ensures Builds(result, Place(groups, Entry(item, section, subSection)))
    ensures InPool(result, pool + result[|nodes|].Nodes)
  {
    PlaceOpens(groups, Entry(item, section, subSection));
    Untouched(nodes, groups, pool);
    AppendSection(nodes, groups, result[|nodes|], NewGroup(Entry(item, section, subSection)), pool);
  }

  /** Subsection nodes are never top-level nodes, so a change confined to the top level spares them. */
  twostate lemma ChildrenUnchanged<T>(nodes: seq<ObservableNode<T>>)
    requires old(Forest(nodes))
    requires forall n: ObservableNode<T> :: old(allocated(n)) && n !in nodes ==> unchanged(n)
    ensures forall k :: 0 <= k < |nodes| ==> unchanged(old(nodes[k].childNodes))
  {
    forall k, i | 0 <= k < |nodes| && 0 <= i < |old(nodes[k].childNodes)|
      ensures unchanged(old(nodes[k].childNodes[i]))
    {
      var c := old(nodes[k].childNodes[i]);
      assert old(SectionNode(nodes[k]));
      assert c in old(nodes[k].Nodes) && c != nodes[k];
      forall m | 0 <= m < |nodes| && m != k
        ensures nodes[m] != c
      {
        assert old(SectionNode(nodes[m]));
        if m < k { assert old(nodes[m].Nodes !! nodes[k].Nodes); }
        else { assert old(nodes[k].Nodes !! nodes[m].Nodes); }
      }
      assert c !in nodes;
    }
  }

  /** `TopItemPlaced` when a section node of that name exists: it receives the item. */
  twostate lemma TopItemFilled<T>(nodes: seq<ObservableNode<T>>, new result: seq<ObservableNode<T>>,
                                  new item: ObservableItem<T>, new section: string, new groups: seq<Group<T>>, new j: nat,
                                  new pool: set<ObservableNode<T>>)
    requires old(allocated(groups)) && old(allocated(pool))
    requires old(Builds(nodes, groups)) && old(InPool(nodes, pool)) && j < |nodes| && result == nodes
    requires FindFirst(Names(groups), section).Some? && FindFirst(Names(groups), section).value == j
    requires forall k :: 0 <= k < |nodes| ==> unchanged(old(nodes[k].childNodes))
    requires nodes[j].childItems == old(nodes[j].childItems) + [item]
    requires nodes[j].Items == old(nodes[j].Items) + {item}
    requires nodes[j].name == old(nodes[j].name) && nodes[j].childNodes == old(nodes[j].childNodes)
    requires nodes[j].isChecked == old(nodes[j].isChecked) && nodes[j].hasSubscriber == old(nodes[j].hasSubscriber)
    requires nodes[j].Nodes == old(nodes[j].Nodes) && nodes[j].height == old(nodes[j].height)
    requires forall n :: n in nodes && n != nodes[j] ==> unchanged(n)
    ensures Builds(result, Place(groups, Entry(item, section, "")))
    ensures fresh(Added(nodes, result)) && InPool(result, pool + Added(nodes, result))
  {
    PlaceFills(groups, Entry(item, section, ""), j);
    forall k | 0 <= k < |nodes|
      ensures SectionNode(nodes[k]) && nodes[k].Nodes == old(nodes[k].Nodes)
      ensures ShowsGroup(nodes[k], groups[j := groups[j].(items := groups[j].items + [item])][k])
    {
      assert old(SectionNode(nodes[k])) && old(ShowsGroup(nodes[k], groups[k]));
      if k != j {
        assert nodes[k] in nodes;
        assert nodes[k] != nodes[j] by {
          assert old(nodes[k] in nodes[k].Nodes && nodes[j] in nodes[j].Nodes);
          if k < j { assert old(nodes[k].Nodes !! nodes[j].Nodes); }
          else { assert old(nodes[j].Nodes !! nodes[k].Nodes); }
        }
      }
    }
  }

  /** `TopItemPlaced` when no section node of that name exists: a new one comes last. */
  twostate lemma TopItemOpened<T>(nodes: seq<ObservableNode<T>>, new result: seq<ObservableNode<T>>,
                                  new item: ObservableItem<T>, new section: string, new groups: seq<Group<T>>,
                                  new pool: set<ObservableNode<T>>)
    requires old(allocated(groups)) && old(allocated(pool))
    requires old(Builds(nodes, groups)) && old(InPool(nodes, pool))
    requires FindFirst(Names(groups), section).None?
    requires forall k :: 0 <= k < |nodes| ==> unchanged(old(nodes[k].childNodes))
    requires |result| == |nodes| + 1 && result == nodes + [result[|nodes|]]
    requires SingleItemNode(result[|nodes|], section, item)
    requires fresh(result[|nodes|])
    requires forall n :: n in nodes ==> unchanged(n)
    ensures Builds(result, Place(groups, Entry(item, section, "")))
    ensures fresh(Added(nodes, result)) && InPool(result, pool + Added(nodes, result))
  {
    PlaceOpens(groups, Entry(item, section, ""));
    var c := result[|nodes|];
    forall k | 0 <= k < |nodes|
      ensures unchanged(nodes[k])
    {
      assert nodes[k] in nodes;
    }
    Untouched(nodes, groups, pool);
    assert ShowsGroup(c, NewGroup(Entry(item, section, "")));
    AppendSection(nodes, groups, c, NewGroup(Entry(item, section, "")), pool);
  }

  /** Section nodes that no change reached still show their sections from the same footprints. */
  twostate lemma Untouched<T>(nodes: seq<ObservableNode<T>>, new groups: seq<Group<T>>, new pool: set<ObservableNode<T>>)
    requires old(allocated(groups)) && old(allocated(pool))
    requires old(Builds(nodes, groups)) && old(InPool(nodes, pool))
    requires forall k :: 0 <= k < |nodes| ==> unchanged(nodes[k]) && unchanged(old(nodes[k].childNodes))
    ensures Builds(nodes, groups) && InPool(nodes, pool)
  {
    forall k | 0 <= k < |nodes|
      ensures SectionNode(nodes[k]) && ShowsGroup(nodes[k], groups[k]) && nodes[k].Nodes <= pool
    {
      assert old(SectionNode(nodes[k])) && old(ShowsGroup(nodes[k], groups[k]));
    }
  }

  /** A section node outside the pool, appended to a forest within the pool, extends the forest. */
  lemma AppendSection<T>(nodes: seq<ObservableNode<T>>, groups: seq<Group<T>>, c: ObservableNode<T>, g: Group<T>,
                         pool: set<ObservableNode<T>>)
    requires Builds(nodes, groups) && InPool(nodes, pool)
    requires SectionNode(c) && ShowsGroup(c, g) && c.Nodes !! pool
    ensures Builds(nodes + [c], groups + [g]) && InPool(nodes + [c], pool + c.Nodes)
  {
    var r := nodes + [c];
    forall k | 0 <= k < |nodes|
      ensures r[k] == nodes[k] && nodes[k].Nodes !! c.Nodes
    {
      assert nodes[k].Nodes <= pool;
    }
  }

  /** `Tree` on a prefix one entry longer places that entry. */
  lemma TreeSnoc<T>(es: seq<Entry<T>>, k: nat)
    requires k < |es|
    ensures Tree(es[..k + 1]) == Place(Tree(es[..k]), es[k])
  {
    assert es[..k + 1][..k] == es[..k];
  }

  /** The names `Tree` gives to sections, and to the subsections of one section, are distinct. */
  lemma TreeNamesDistinct<T>(es: seq<Entry<T>>)
    ensures WellNamed(Tree(es))
  {
    TreeDescribes(es);
    forall j | 0 <= j < |Tree(es)|
      ensures DistinctNames(SubNames(Tree(es)[j].subGroups))
    {
      assert DescribesGroup(Tree(es)[j], es);
    }
  }

  /** Every node of a forest showing a tree value is a valid tree. */
  lemma BuiltNodesAreValid<T>(nodes: seq<ObservableNode<T>>, groups: seq<Group<T>>)
    requires Builds(nodes, groups)
    ensures forall k :: 0 <= k < |nodes| ==> nodes[k].Valid()
  {
    forall k | 0 <= k < |nodes|
      ensures nodes[k].Valid()
    {
      SectionNodeIsValid(nodes[k], groups[k]);
    }
  }

  /**
   * `CreateNodeTree`: the returned nodes, all new and each a valid tree, show the tree `Tree`
   * builds from the items' sections and subsections; `TreeDescribes` and
   * `TreeHoldsEachItemOnce` say what that tree is.
   */
  method CreateNodeTree<T>(observableItems: seq<ObservableItem<T>>) returns (nodes: seq<ObservableNode<T>>)
    ensures Builds(nodes, Tree(EntriesOf(observableItems)))
    ensures forall k :: 0 <= k < |nodes| ==> fresh(nodes[k].Nodes) && nodes[k].Valid()
  {
    ghost var pool;
    nodes, pool := BuildNodes(observableItems);
    BuiltNodesAreValid(nodes, Tree(EntriesOf(observableItems)));
  }

  /** The loop of `CreateNodeTree`, with the set of nodes it has created so far. */
  method BuildNodes<T>(observableItems: seq<ObservableItem<T>>)
    returns (nodes: seq<ObservableNode<T>>, ghost pool: set<ObservableNode<T>>)
    ensures Builds(nodes, Tree(EntriesOf(observableItems))) && fresh(pool) && InPool(nodes, pool)
  {
    nodes := [];
    ghost var es := EntriesOf(observableItems);
    pool := {};
    for k := 0 to |observableItems|
      invariant Builds(nodes, Tree(es[..k])) && fresh(pool) && InPool(nodes, pool)
    {
      ghost var added;
      nodes, added := PlaceItem(nodes, observableItems[k], es, k, pool);
      pool := pool + added;
    }
    assert es[..|observableItems|] == es;
  }
}
