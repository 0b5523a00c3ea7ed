# RevitPluginKit core, modelled in Dafny

This project models the reusable core of RevitPluginKit, a C# helper library for Revit add-ins:

- **Element collectors.** `ElementsCollector` gathers the element instances or element types of
  one category. `FilterUtilities` then narrows them: an optional design-option filter applied to
  the collector in place, then LINQ stages on family name, type name and level ids, and finally
  `Cast<T>()`.
- **Observable view-model classes.** `ObservableItem<T>` and `ObservableNode<T>` are checkable
  wrappers shown in WPF trees and lists. Setting a node's `IsChecked` cascades to its children
  through the node's own `PropertyChanged` handler.
- **Utilities over them.** Bulk (un)checking, toggling a selection, and
  `ObservableNodeUtilities.CreateNodeTree`, which groups items into section and subsection nodes.
- **Small pure helpers.**
  - `StringConverter.StopwatchToString` formats elapsed time as `HH:MM:SS:CC`.
  - The two `NumberValidation` text-input handlers reject any text that contains a non-digit.
  - `TestResultData` is the record the test plug-in shows for each check.

Module layout, one file each:

- `wrappers.dfy`: `Option` and `Result`.
- `revit_model.dfy`: what the collectors see of a Revit document, and the in-place
  `FilteredElementCollector`.
- `filter_utilities.dfy`, `elements_collector.dfy`.
- `observable_item.dfy`, `observable_item_utilities.dfy`.
- `observable_node.dfy`, `observable_node_utilities.dfy`.
- `node_tree.dfy`: the tree `CreateNodeTree` builds, as a value, together with a declarative
  description of it.
- `string_converter.dfy`, `number_validator.dfy`, `wpf_kit.dfy`, `test_result_data.dfy`.

State that the C# code changes in place is modelled by Dafny classes with `modifies` frames:

- the collector's element list;
- item and node flags, names and child lists;
- an event log per object, recording each `PropertyChanged` raised.

Pure computations are functions. Each one is tied by lemmas to an independent reference
definition:

- `KeepAll` for the filter stages;
- `Describes` for the node tree;
- `SplitOn` for the joined stopwatch fields;
- a per-character statement for the regular expression.

## Model

| member | source | states |
|---|---|---|
| RevitModel.FilteredElementCollector.constructor | RevitPluginKit/src/collectors/ElementsCollector.cs:39-40 | A new collector over a document holds all of the document's elements. |
| RevitModel.FilteredElementCollector.WhereElementIsNotElementType | RevitPluginKit/src/collectors/ElementsCollector.cs:41 | The collector keeps exactly its non-type elements, in order. |
| RevitModel.FilteredElementCollector.WhereElementIsElementType | RevitPluginKit/src/collectors/ElementsCollector.cs:71 | The collector keeps exactly its element types, in order. |
| RevitModel.FilteredElementCollector.OfCategory | RevitPluginKit/src/collectors/ElementsCollector.cs:42 | The collector keeps exactly its elements of the category, in order. |
| RevitModel.FilteredElementCollector.WherePasses | RevitPluginKit/src/collectors/FilterUtilities.cs:84 | The collector keeps exactly the elements the design-option filter passes, in order. |
| RevitModel.Keep | RevitPluginKit/src/collectors/FilterUtilities.cs:99-112 | A filter stage keeps exactly the elements satisfying its test, as a subsequence of its input. |
| RevitModel.KeepPassing | RevitPluginKit/src/collectors/FilterUtilities.cs:84 | The design-option stage keeps exactly the passing elements, as a subsequence. |
| RevitModel.SubsequenceTransitive | RevitPluginKit/src/collectors/FilterUtilities.cs:93-115 | Narrowing twice still yields a subsequence of the original list, so chained stages preserve document order. |
| ElementsCollector.InstanceScan | RevitPluginKit/src/collectors/ElementsCollector.cs:39-42 | The scan holds exactly the document's non-type elements of the category, in document order. |
| ElementsCollector.TypeScan | RevitPluginKit/src/collectors/ElementsCollector.cs:69-72 | The scan holds exactly the document's element types of the category, in document order. |
| ElementsCollector.InstancesByCategory | RevitPluginKit/src/collectors/ElementsCollector.cs:31-51 | The result is the specified instance query. On success it is a subsequence of the document and holds exactly the category's instances passing the option stage and every non-null stage. |
| ElementsCollector.TypesByCategory | RevitPluginKit/src/collectors/ElementsCollector.cs:64-77 | The result is the specified type query. On success it is a subsequence of the document and holds exactly the category's types passing every non-null stage. |
| ElementsCollector.DefaultOptionIsActiveOption | RevitPluginKit/src/collectors/FilterUtilities.cs:76-82 | With the option stage on, a null filter gives the same result as a filter for the active design option. |
| ElementsCollector.UnusedOptionFilterIgnored | RevitPluginKit/src/collectors/FilterUtilities.cs:76 | With the option stage off, the filter argument does not affect the result. |
| ElementsCollector.UnfilteredInstancesAreScan | RevitPluginKit/src/collectors/ElementsCollector.cs:31-51 | With no family, type or level argument and the option stage off, the result is every instance of the category in document order. |
| ElementsCollector.UnfilteredTypesAreScan | RevitPluginKit/src/collectors/ElementsCollector.cs:64-77 | With no optional argument, the result is every type of the category in document order. |
| ElementsCollector.InstancesAndTypesDisjoint | RevitPluginKit/src/collectors/ElementsCollector.cs:40-42 | An instance query and a type query never return the same element. |
| ElementsCollector.FamilyFilterOnNonFamilyThrows | RevitPluginKit/src/collectors/FilterUtilities.cs:99-102 | A family-name query over a candidate without a family fails with the cast exception, whatever the other arguments are. |
| FilterUtilities.AddOptionFilter | RevitPluginKit/src/collectors/FilterUtilities.cs:70-88 | Returns the same collector. With the stage off it is unchanged. Otherwise it is narrowed by the given filter, or by one for the active option when the filter is null. |
| FilterUtilities.OptionStage | RevitPluginKit/src/collectors/FilterUtilities.cs:76-85 | Without the stage the elements are unchanged; with it, exactly the passing elements remain, as a subsequence. |
| FilterUtilities.FamilyStage | RevitPluginKit/src/collectors/FilterUtilities.cs:99-102 | A null name skips the stage. Otherwise it fails exactly when some candidate has no family, and on success keeps exactly the family matches, in order. |
| FilterUtilities.TypeNameStage | RevitPluginKit/src/collectors/FilterUtilities.cs:104-107 | A null name skips the stage; otherwise exactly the exact-name matches remain, in order. |
| FilterUtilities.LevelStage | RevitPluginKit/src/collectors/FilterUtilities.cs:109-112 | A null list skips the stage and an empty list keeps nothing; otherwise exactly the elements on a listed level remain, in order. |
| FilterUtilities.CastStage | RevitPluginKit/src/collectors/FilterUtilities.cs:114 | Succeeds exactly when every element is a `T`, and then returns the list unchanged. |
| FilterUtilities.ApplyInstanceFilters | RevitPluginKit/src/collectors/FilterUtilities.cs:93-115 | Fails exactly when the family cast or `Cast<T>` meets a wrong element. On success the result is a subsequence holding exactly the elements that pass every non-null stage. |
| FilterUtilities.ApplyTypeFilters | RevitPluginKit/src/collectors/FilterUtilities.cs:120-136 | The same, for the family-name and type-name stages of types. |
| FilterUtilities.AddInstanceFilters | RevitPluginKit/src/collectors/FilterUtilities.cs:26-45 | With the option stage on, the collector holds exactly the elements passing the resolved filter, as a subsequence; with it off, the collector is unchanged. The result is the LINQ stages run over what it then holds. |
| FilterUtilities.AddTypeFilters | RevitPluginKit/src/collectors/FilterUtilities.cs:56-65 | The result is the type stages run over the collector's elements. |
| FilterUtilities.KeepEachIsKeepAll | RevitPluginKit/src/collectors/FilterUtilities.cs:99-112 | Running the stages one after another equals one pass that keeps the elements satisfying all of them. |
| FilterUtilities.StageOrderIrrelevant | RevitPluginKit/src/collectors/FilterUtilities.cs:99-112 | Any reordering of the stages gives the same elements in the same order. |
| FilterUtilities.KeepEachAppend | RevitPluginKit/src/collectors/FilterUtilities.cs:99-112 | Running two lists of stages in a row equals running their concatenation. |
| FilterUtilities.InstanceStagesCommute | RevitPluginKit/src/collectors/FilterUtilities.cs:93-115 | A successful instance query equals its active stages applied in any order. |
| ObservableItems.ObservableItem.constructor | RevitPluginKit/src/wpf/ObservableItem.cs:35-45 | The element, name, number and flag are as given. There is no subscriber yet and no notification. |
| ObservableItems.ObservableItem.SetName | RevitPluginKit/src/wpf/ObservableItem.cs:56-64 | The name is set; a `Name` notification is raised when a handler is subscribed. |
| ObservableItems.ObservableItem.SetNumber | RevitPluginKit/src/wpf/ObservableItem.cs:72-80 | The number is set; a `Number` notification is raised when a handler is subscribed. |
| ObservableItems.ObservableItem.SetIsChecked | RevitPluginKit/src/wpf/ObservableItem.cs:88-96 | The flag is set; an `IsChecked` notification is raised, even when the value is unchanged. |
| ObservableItemUtilities.IsCheckedChange | RevitPluginKit/src/wpf/ObservableItemUtilities.cs:23-31 | Every listed item ends with the required value. Each logs one `IsChecked` notification per occurrence in the list when subscribed. |
| ObservableItemUtilities.SelectionIsCheckedToggle | RevitPluginKit/src/wpf/ObservableItemUtilities.cs:39-51 | A null selection changes nothing. Otherwise each selected item is negated once per time it is selected and logs one notification per toggle. Only the selected items' flags and logs may change. |
| ObservableItemUtilities.ToggleEach | RevitPluginKit/src/wpf/ObservableItemUtilities.cs:48 | The loop over a present selection: each item's flag is its old flag negated `Count(selection, item)` times. |
| ObservableItemUtilities.CountIsMultiplicity | RevitPluginKit/src/wpf/ObservableItemUtilities.cs:48 | The number of toggles an item receives is its multiplicity in the selection. |
| ObservableItemUtilities.ToggleTwiceRestores | RevitPluginKit/src/wpf/ObservableItemUtilities.cs:39-51 | Toggling the same selection twice restores every flag. |
| ObservableItemUtilities.DistinctSelectionFlipsOnce | RevitPluginKit/src/wpf/ObservableItemUtilities.cs:39-51 | A selection without repetition negates each selected item's flag. |
| ObservableNodes.RemoveFirst | RevitPluginKit/src/wpf/ObservableNode.cs:102-105 | `List.Remove` leaves the list unchanged when the value is absent, and otherwise makes it one shorter. |
| ObservableNodes.RemoveFirstMultiset | RevitPluginKit/src/wpf/ObservableNode.cs:102-105 | Exactly one copy of the value is removed. |
| ObservableNodes.RemoveFirstCutsFirstOccurrence | RevitPluginKit/src/wpf/ObservableNode.cs:124-127 | The first occurrence is cut out and the rest keeps its order. |
| ObservableNodes.ObservableNode.constructor | RevitPluginKit/src/wpf/ObservableNode.cs:26-32 | The name and flag are as given, the child lists start empty, there is no subscriber, and the node is a valid one-node tree. |
| ObservableNodes.ObservableNode.SetName | RevitPluginKit/src/wpf/ObservableNode.cs:43-51 | The name is set and notified when subscribed; no child is touched. |
| ObservableNodes.ObservableNode.AddChildNode | RevitPluginKit/src/wpf/ObservableNode.cs:91-94 | Appends the child. The tree stays valid when the child lies outside it. |
| ObservableNodes.ObservableNode.RemoveChildNode | RevitPluginKit/src/wpf/ObservableNode.cs:102-105 | Drops the first occurrence of the child and keeps the tree valid. |
| ObservableNodes.ObservableNode.AddChildItem | RevitPluginKit/src/wpf/ObservableNode.cs:113-116 | Appends the item and keeps the tree valid. |
| ObservableNodes.ObservableNode.RemoveChildItem | RevitPluginKit/src/wpf/ObservableNode.cs:124-127 | Drops the first occurrence of the item and keeps the tree valid. |
| ObservableNodes.ObservableNode.SetIsChecked | RevitPluginKit/src/wpf/ObservableNode.cs:59-67 | The node is set and notified. Every node and item the cascade reaches gets the new value; its log grows only by `IsChecked` notifications, at least one when subscribed and none otherwise. Every other flag and log below is unchanged. |
| ObservableNodes.ObservableNode.Cascade | RevitPluginKit/src/wpf/ObservableNode.cs:132-143 | The subscribed handler sets, below the node, exactly what its child nodes reach plus its child items. Those objects' logs grow only by `IsChecked` notifications, at least one when subscribed and none otherwise; every other flag and log is unchanged. |
| ObservableNodes.ObservableNode.CascadeToChildNodes | RevitPluginKit/src/wpf/ObservableNode.cs:139 | The `ForEach` over the child nodes sets exactly what their changes reach, even where two children share a descendant. Reached logs grow only by `IsChecked` notifications, at least one when subscribed and none otherwise; other flags and logs are unchanged. |
| ObservableNodes.ObservableNode.CascadeToChild | RevitPluginKit/src/wpf/ObservableNode.cs:139 | One child's setter sets exactly what that child reaches and appends only `IsChecked` notifications to their logs, at least one when subscribed and none otherwise; other flags and logs are unchanged. |
| ObservableNodes.ObservableNode.CascadeToChildItems | RevitPluginKit/src/wpf/ObservableNode.cs:140 | Exactly the child items receive the value. Each child item's log grows by exactly one `IsChecked` notification per occurrence in the list when subscribed, and not at all otherwise; other items' flags and logs are unchanged. |
| ObservableNodes.ObservableNode.DirectChildrenReached | RevitPluginKit/src/wpf/ObservableNode.cs:137-141 | With a subscriber, a change reaches every direct child node and child item. |
| ObservableNodes.ObservableNode.ReachedItemsAreThoseOfSubscribedNodes | RevitPluginKit/src/wpf/ObservableNode.cs:132-143 | The items a change reaches are exactly the child items of reached nodes that have a subscriber. |
| ObservableNodes.ObservableNode.ReachedByOneChild | RevitPluginKit/src/wpf/ObservableNode.cs:139 | Whatever the first k child changes reach is reached by one of those children. |
| ObservableNodeUtilities.IsCheckedChange | RevitPluginKit/src/wpf/ObservableNodeUtilities.cs:23-31 | Takes a list of items, as the code does. Every listed item ends with the required value and logs one notification per occurrence when subscribed. |
| ObservableNodeUtilities.SelectionIsCheckedToggle | RevitPluginKit/src/wpf/ObservableNodeUtilities.cs:39-51 | A null selection changes nothing. Only flags and logs inside the selected subtrees may change. For separate subtrees, each selected node is negated and logs exactly one `IsChecked` notification when subscribed, none otherwise. Every node and item its cascade reaches takes that negated value and is notified (only `IsChecked`, at least once when subscribed, never when not). Every other node and item of the subtree keeps its flag and log. |
| ObservableNodeUtilities.ToggleEachNode | RevitPluginKit/src/wpf/ObservableNodeUtilities.cs:46-49 | The loop, within the same frame: for separate subtrees, every selected node ends negated with exactly one more `IsChecked` notification when subscribed. Every node and item it reaches ends with that node's old flag negated and is notified. Every other node and item of the subtree keeps its flag and log. |
| ObservableNodeUtilities.ToggleStep | RevitPluginKit/src/wpf/ObservableNodeUtilities.cs:48 | One turn of the loop: when the subtrees are separate, the toggled-so-far statements about the nodes' and the items' flags and logs move from the first k selected nodes to the first k+1. Every tree stays valid with the same reach. |
| ObservableNodeUtilities.ItemsStepToggle | RevitPluginKit/src/wpf/ObservableNodeUtilities.cs:48 | The items' side of one turn: the toggled-so-far statement about the items' flags and logs moves from k to k+1, and the node facts of `ToggleNode` carry over. |
| ObservableNodeUtilities.NodesToggled | RevitPluginKit/src/wpf/ObservableNodeUtilities.cs:46-49 | After the whole loop, each selected node is negated with exactly one more notification, and every node of its subtree is negated and notified when reached, unchanged otherwise, measured against the state before the loop. |
| ObservableNodeUtilities.ItemsToggled | RevitPluginKit/src/wpf/ObservableNodeUtilities.cs:46-49 | After the whole loop, every item of a selected subtree is negated and notified when reached, unchanged otherwise, measured against the state before the loop. |
| ObservableNodeUtilities.ToggleNode | RevitPluginKit/src/wpf/ObservableNodeUtilities.cs:48 | One toggle changes only its own subtree. The node is negated and logs exactly one `IsChecked` notification when subscribed, none otherwise. What it reaches takes the negated flag and is notified; the rest keeps its flag and log. The other separate subtrees keep their flags and logs, and every tree stays valid with the same reach. |
| ObservableNodeUtilities.AddItemToNode | RevitPluginKit/src/wpf/ObservableNodeUtilities.cs:109-125 | Finds the first node with the name. If found, it receives the item; otherwise a fresh one-item node is appended. Nothing else changes. |
| ObservableNodeUtilities.AddToSection | RevitPluginKit/src/wpf/ObservableNodeUtilities.cs:83-91 | An existing section node ends up showing its section with the item placed in the subsection. |
| ObservableNodeUtilities.SetSubSections | RevitPluginKit/src/wpf/ObservableNodeUtilities.cs:86-90 | The section node takes the updated subsection list and shows the placed section. |
| ObservableNodeUtilities.AddToSubSections | RevitPluginKit/src/wpf/ObservableNodeUtilities.cs:86-90 | `AddItemToNode` on the subsection nodes yields nodes that show `AddToSubGroups` of the subsections. |
| ObservableNodeUtilities.NewSection | RevitPluginKit/src/wpf/ObservableNodeUtilities.cs:92-99 | A fresh section node with one subsection node holding the item, showing `NewGroup`. |
| ObservableNodeUtilities.PlaceItem | RevitPluginKit/src/wpf/ObservableNodeUtilities.cs:66-100 | One loop pass: the node list goes from showing `Tree` of the first k entries to showing `Tree` of k+1. |
| ObservableNodeUtilities.PlaceAtTop | RevitPluginKit/src/wpf/ObservableNodeUtilities.cs:74-80 | An item without a subsection is placed as `Place` with an empty subsection prescribes. |
| ObservableNodeUtilities.PlaceInSection | RevitPluginKit/src/wpf/ObservableNodeUtilities.cs:81-100 | An item with a subsection is placed as `Place` prescribes. |
| ObservableNodeUtilities.SectionFilled | RevitPluginKit/src/wpf/ObservableNodeUtilities.cs:83-91 | Filling the found section node keeps the forest showing the placed tree. |
| ObservableNodeUtilities.SectionOpened | RevitPluginKit/src/wpf/ObservableNodeUtilities.cs:92-99 | Appending a new section node keeps the forest showing the placed tree. |
| ObservableNodeUtilities.TopItemFilled | RevitPluginKit/src/wpf/ObservableNodeUtilities.cs:114-118 | Adding to the found top node keeps the forest showing the placed tree. |
| ObservableNodeUtilities.TopItemOpened | RevitPluginKit/src/wpf/ObservableNodeUtilities.cs:119-124 | Appending a new top node keeps the forest showing the placed tree. |
| ObservableNodeUtilities.TreeNamesDistinct | RevitPluginKit/src/wpf/ObservableNodeUtilities.cs:62-104 | The built tree never has two sections, or two subsections of one section, with the same name. |
| ObservableNodeUtilities.BuiltNodesAreValid | RevitPluginKit/src/wpf/ObservableNodeUtilities.cs:62-104 | Every node of a forest showing a tree is a valid, acyclic node tree. |
| ObservableNodeUtilities.CreateNodeTree | RevitPluginKit/src/wpf/ObservableNodeUtilities.cs:62-104 | Returns fresh, valid, unchecked section nodes that show `Tree` of the items' entries, two levels deep at most. |
| ObservableNodeUtilities.BuildNodes | RevitPluginKit/src/wpf/ObservableNodeUtilities.cs:64-101 | The loop, with every created node in a fresh pool. |
| NodeTree.EntryOf | RevitPluginKit/src/wpf/ObservableNodeUtilities.cs:67-80 | A null section reads as the empty name; a null or empty subsection means "no subsection". |
| NodeTree.FindFirst | RevitPluginKit/src/wpf/ObservableNodeUtilities.cs:83 | `List.Find` by name: none exactly when the name is absent, otherwise the first position holding it. |
| NodeTree.Dedup | RevitPluginKit/src/wpf/ObservableNodeUtilities.cs:83 | Keeps every name once, in order of first appearance. |
| NodeTree.PlaceDescribes | RevitPluginKit/src/wpf/ObservableNodeUtilities.cs:65-101 | One pass keeps the tree equal to its declarative description. |
| NodeTree.TreeDescribes | RevitPluginKit/src/wpf/ObservableNodeUtilities.cs:62-104 | The tree has one section per distinct section name, in first-seen order. Each holds the items without a subsection, and one subsection per distinct name, each with its items in input order. |
| NodeTree.TreeHoldsEachItemOnce | RevitPluginKit/src/wpf/ObservableNodeUtilities.cs:62-104 | The tree holds every input item exactly as often as the input does. |
| StringConverter.Hours | RevitPluginKit/src/converters/StringConverter.cs:45 | `TimeSpan.Hours` is below 24. |
| StringConverter.Centiseconds | RevitPluginKit/src/converters/StringConverter.cs:60 | Milliseconds divided by ten is below 100. |
| StringConverter.DaysDropped | RevitPluginKit/src/converters/StringConverter.cs:42-60 | A whole day more leaves every component unchanged. |
| StringConverter.Format00 | RevitPluginKit/src/converters/StringConverter.cs:41 | `{0:00}` gives decimal digits standing for the number, exactly two of them below 100. |
| StringConverter.DecimalDigits | RevitPluginKit/src/converters/StringConverter.cs:41 | The digits read back as the number, have no leading zero, and are one digit exactly below 10. |
| StringConverter.SplitJoin | RevitPluginKit/src/converters/StringConverter.cs:63 | Splitting a join at its separator gives back the parts when no part contains the separator. |
| StringConverter.Components | RevitPluginKit/src/converters/StringConverter.cs:43-61 | One component per flag set, each below 100. |
| StringConverter.StopwatchToString | RevitPluginKit/src/converters/StringConverter.cs:33-64 | Empty exactly when no flag is set. Otherwise it splits at `:` into one two-digit field per selected component, each reading back as that component. |
| StringConverter.ReadBack | RevitPluginKit/src/converters/StringConverter.cs:63 | Joined fields of components below 100 split back into those fields. |
| StringConverter.MatchesReferenceFormats | RevitPluginKitTests/src/UtilitiesTest.cs:216-321 | The four flag combinations the tests use equal their `string.Format` references. |
| StringConverter.DefaultShape | RevitPluginKit/src/converters/StringConverter.cs:33-64 | With the default flags the result is eleven characters: digits, with colons at positions 2, 5 and 8. |
| NumberValidator.NumberValidation | RevitPluginKit/src/validators/NumberValidator.cs:16-22 | `Handled` holds exactly when the text has a character other than `0`-`9`. |
| NumberValidator.HandledOfConcatenation | RevitPluginKit/src/validators/NumberValidator.cs:20-21 | A concatenation is rejected exactly when one of its parts is. |
| NumberValidator.EmptyIsLetThrough | RevitPluginKit/src/validators/NumberValidator.cs:20-21 | Empty text is not rejected. |
| NumberValidator.OtherScriptDigitIsRejected | RevitPluginKit/src/validators/NumberValidator.cs:20 | A digit of another script is rejected. |
| WPFKit.NumberValidation | RevitPluginKit/src/wpf/WPFKit.cs:19-25 | The same verdict as `NumberValidator.NumberValidation`: a non-digit is present. |
| TestResults.FactResult | RevitPluginKitTests/src/utilities/TestResultData.cs:16-25 | A fact record keeps the name, verdict and description as given, with no lists and zero counts. |
| TestResults.ListResult | RevitPluginKitTests/src/utilities/TestResultData.cs:33-45 | A list record keeps both lists, its counts are their lengths, and it is correct exactly when the counts agree. |
| TestResults.VerdictIgnoresContents | RevitPluginKitTests/src/utilities/TestResultData.cs:44 | The verdict depends on the two lengths only. |
| TestResults.DifferentContentsPass | RevitPluginKitTests/src/utilities/TestResultData.cs:44 | Lists of equal length but different contents pass. |

## Left out

- The Revit API itself is not modelled. A document is its element table, its active option id, and an
  uninterpreted "filter passes element" relation. The quick/slow filter machinery, transactions and
  element-id lookups are outside the model.
- An element's design option is read only through that relation. The filter records its option id and
  its `inverted` flag; the library always builds it with the one-argument constructor, so not inverted.
- `Cast<T>` is a run-time type test passed in as a predicate (`isT`).
- LINQ's deferred execution is not modelled. The outcome (list or cast exception) is computed eagerly,
  stage by stage, which gives the same list or exception.
- There is no error when the document has no active design option. The code builds a filter for
  whatever id it is given.
- A family-name filter over a candidate that is not a family instance or family symbol throws
  `InvalidCastException`, as the casts in the code do; it does not silently skip the candidate.
- The WPF event arguments are not modelled. For `SelectionIsCheckedToggle`, the `sender` cast to a
  `ListBox` and its `SelectedItems` become an optional sequence, and a null or empty selection is a
  no-op. The selected objects are typed as items or nodes, so the `as` cast never yields null, and the
  `NullReferenceException` a foreign object would cause is not modelled. For `NumberValidation`, `TextCompositionEventArgs` becomes the typed text, and the result is
  the value written to `Handled`.
- `WPFKit.MouseWheelScroll` is UI scrolling with no state of the core; it is not part of this model.
- `PropertyChanged` subscribers other than the node's own cascade are a boolean `hasSubscriber` plus a
  ghost log of the notifications raised. What other handlers do is not modelled.
- Node names are non-null strings. The C# `Name` may be null, in which case `Find` with `Equals` would
  throw; that path is not modelled.
- `ObservableNode`'s `ChildNodes` and `ChildItems` are get-only properties that the constructor never
  assigns. The model starts them empty, the only way the node methods can run.
- `ObservableItem` has no `Section` or `SubSection` property, yet `CreateNodeTree` reads them. The model
  adds them as settable fields that start null.
- `CreateNodeTree` is an instance method of a class with no state. The model makes it a method without
  a receiver.
- The ghost footprints of nodes (`Nodes`, `Items`, `height`) are proof bookkeeping with no counterpart in
  the C# code. `Valid` excludes every cycle through child
  lists, and `SetIsChecked` requires it. The C# cascade runs only through nodes with a subscriber, so it
  fails to terminate only on a cycle of subscribed nodes. The cyclic structures the C# does handle (a
  cycle through an unsubscribed node) are not modelled.
- ObservableNodeUtilities.SelectionIsCheckedToggle: its outcome is stated only when the selected
  subtrees share no node (`Separate`). With shared nodes, later toggles overwrite earlier ones. The
  model then states only that no object outside the selected subtrees changes, and that only flags and
  logs change inside them.
- ObservableNodeUtilities.ToggleEachNode: the same restriction to separate subtrees; `NodesToggled`,
  `ItemsToggled`, `ToggleStep` and `ItemsStepToggle` state their outcome only for separate subtrees too.
- StringConverter.StopwatchToString: the elapsed time is a natural number of ticks, and the
  `Stopwatch` object and its clock are not modelled. The string is built as a value; the local `List`
  it appends to is not modelled.
- Characters are Unicode scalar values, not UTF-16 code units; the regular expression's class `0-9` is
  the same under both.
- TestResults.ListResult: the list constructor throws on null lists (`Count` on null), and the model
  takes sequences, which are never null. The record keeps copies of the lists, so later changes to the
  caller's lists through aliasing are not modelled.
- C# `int` counts (`TestNumber`, `CorrectNumber`) are unbounded naturals. A list longer than
  `int.MaxValue` is impossible in .NET.
