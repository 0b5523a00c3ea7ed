/**
 * The section/subsection tree that `ObservableNodeUtilities.CreateNodeTree` builds, as a
 * value: the find-or-create construction item by item (`Tree`), and a direct description
 * of its result (`Describes`) proved to match it.
 */
module NodeTree {
  import opened Wrappers
  import opened ObservableItems

  /**
   * What the construction reads from one item: the item, its section (null read as the
   * empty string) and its subsection (null and empty both meaning "none", written "").
   */
  datatype Entry<T> = Entry(item: ObservableItem<T>, section: string, subSection: string)

  function EntryOf<T>(item: ObservableItem<T>): (e: Entry<T>)
    reads item
    ensures e.item == item
    ensures e.section == (if item.section == None then "" else item.section.value)
    ensures e.subSection == "" <==> item.subSection == None || item.subSection == Some("")
  {
    Entry(item, item.section.GetOr(""), item.subSection.GetOr(""))
  }

  function EntriesOf<T>(items: seq<ObservableItem<T>>): (es: seq<Entry<T>>)
    reads set i | i in items
    ensures |es| == |items|
    ensures forall k :: 0 <= k < |items| ==> es[k] == EntryOf(items[k])
  {
    if items == [] then [] else EntriesOf(items[..|items| - 1]) + [EntryOf(items[|items| - 1])]
  }

  /** A subsection node: its name and child items. */
  datatype SubGroup<T> = SubGroup(name: string, items: seq<ObservableItem<T>>)

  /** A top-level section node: its name, child items and subsection nodes. */
  datatype Group<T> = Group(name: string, items: seq<ObservableItem<T>>, subGroups: seq<SubGroup<T>>)

  function Names<T>(gs: seq<Group<T>>): (r: seq<string>)
    ensures |r| == |gs| && forall j :: 0 <= j < |gs| ==> r[j] == gs[j].name
  {
    if gs == [] then [] else Names(gs[..|gs| - 1]) + [gs[|gs| - 1].name]
  }

  function SubNames<T>(ss: seq<SubGroup<T>>): (r: seq<string>)
    ensures |r| == |ss| && forall j :: 0 <= j < |ss| ==> r[j] == ss[j].name
  {
    if ss == [] then [] else SubNames(ss[..|ss| - 1]) + [ss[|ss| - 1].name]
  }

  /** `List<T>.Find` by name: the first position holding `name`, if any. */
  function FindFirst(names: seq<string>, name: string): (r: Option<nat>)
    ensures r.None? <==> name !in names
    ensures r.Some? ==> r.value < |names| && names[r.value] == name
    ensures r.Some? ==> forall i :: 0 <= i < r.value ==> names[i] != name
  {
    if names == [] then None
    else if names[0] == name then Some(0)
    else
      match FindFirst(names[1..], name)
      case None => None
      case Some(j) => Some(j + 1)
  }

  /** `AddItemToNode` on subsection nodes. */
  function AddToSubGroups<T>(subs: seq<SubGroup<T>>, item: ObservableItem<T>, name: string): seq<SubGroup<T>>
  {
    var found := FindFirst(SubNames(subs), name);
    if found.Some? then subs[found.value := subs[found.value].(items := subs[found.value].items + [item])]
    else subs + [SubGroup(name, [item])]
  }

  /** A section already present receives the entry: as its own item or in a subsection. */
  function PlacedInto<T>(g: Group<T>, e: Entry<T>): Group<T>
  {
    if e.subSection == "" then g.(items := g.items + [e.item])
    else g.(subGroups := AddToSubGroups(g.subGroups, e.item, e.subSection))
  }

  /** The group a new section opens for its first entry. */
  function NewGroup<T>(e: Entry<T>): Group<T>
  {
    if e.subSection == "" then Group(e.section, [e.item], [])
    else Group(e.section, [], [SubGroup(e.subSection, [e.item])])
  }

  /** One pass of the loop of `CreateNodeTree`. */
  function Place<T>(groups: seq<Group<T>>, e: Entry<T>): seq<Group<T>>
  {
    var found := FindFirst(Names(groups), e.section);
    if found.Some? then groups[found.value := PlacedInto(groups[found.value], e)]
    else groups + [NewGroup(e)]
  }

  /** The tree `CreateNodeTree` builds from the entries `es`, placed one after another. */
  function Tree<T>(es: seq<Entry<T>>): seq<Group<T>>
  {
    if es == [] then [] else Place(Tree(es[..|es| - 1]), es[|es| - 1])
  }

  // The tree described directly.

  /** The distinct elements of `s`, in order of first appearance. */
  function Dedup(s: seq<string>): (r: seq<string>)
    ensures forall x :: x in r <==> x in s
    ensures forall j, k :: 0 <= j < k < |r| ==> r[j] != r[k]
  {
    if s == [] then []
    else
      var d := Dedup(s[..|s| - 1]);
      assert s == s[..|s| - 1] + [s[|s| - 1]];
      if s[|s| - 1] in d then d else d + [s[|s| - 1]]
  }

  function Sections<T>(es: seq<Entry<T>>): (r: seq<string>)
    ensures forall x :: x in r <==> exists k :: 0 <= k < |es| && es[k].section == x
  {
    if es == [] then []
    else
      var r := Sections(es[..|es| - 1]) + [es[|es| - 1].section];
      assert forall k :: 0 <= k < |es| - 1 ==> es[..|es| - 1][k] == es[k];
      r
  }

  /** The non-empty subsections named by the entries of section `section`, in order. */
  function SubSections<T>(es: seq<Entry<T>>, section: string): (r: seq<string>)
    ensures forall x :: x in r ==> x != ""
  {
    if es == [] then []
    else
      var e := es[|es| - 1];
      SubSections(es[..|es| - 1], section) + (if e.section == section && e.subSection != "" then [e.subSection] else [])
  }

  /** The items of the entries with exactly this section and subsection, in order. */
  function ItemsAt<T>(es: seq<Entry<T>>, section: string, subSection: string): seq<ObservableItem<T>>
  {
    if es == [] then []
    else
      var e := es[|es| - 1];
      ItemsAt(es[..|es| - 1], section, subSection) + (if e.section == section && e.subSection == subSection then [e.item] else [])
  }

  /**
   * `groups` is the tree of `es`: one group per distinct section in order of first
   * appearance, holding the items without subsection of that section in input order, and
   * one subgroup per distinct subsection of that section in order of first appearance,
   * holding that subsection's items in input order.
   */
  ghost predicate Describes<T>(groups: seq<Group<T>>, es: seq<Entry<T>>)
  {
    && Names(groups) == Dedup(Sections(es))
    && forall j :: 0 <= j < |groups| ==> DescribesGroup(groups[j], es)
  }

  ghost predicate DescribesGroup<T>(g: Group<T>, es: seq<Entry<T>>)
  {
    && g.items == ItemsAt(es, g.name, "")
    && SubNames(g.subGroups) == Dedup(SubSections(es, g.name))
    && forall k :: 0 <= k < |g.subGroups| ==> g.subGroups[k].items == ItemsAt(es, g.name, g.subGroups[k].name)
  }

  // Unfolding the snoc-recursive descriptions one entry at a time.

  lemma SectionsSnoc<T>(es: seq<Entry<T>>, e: Entry<T>)
    ensures Sections(es + [e]) == Sections(es) + [e.section]
  {
    assert (es + [e])[..|es|] == es;
  }

  lemma SubSectionsSnoc<T>(es: seq<Entry<T>>, e: Entry<T>, a: string)
    ensures e.section == a && e.subSection != "" ==> SubSections(es + [e], a) == SubSections(es, a) + [e.subSection]
    ensures e.section != a || e.subSection == "" ==> SubSections(es + [e], a) == SubSections(es, a)
  {
    assert (es + [e])[..|es|] == es;
    assert SubSections(es, a) + [] == SubSections(es, a);
  }

  lemma ItemsAtSnoc<T>(es: seq<Entry<T>>, e: Entry<T>, a: string, b: string)
    ensures e.section == a && e.subSection == b ==> ItemsAt(es + [e], a, b) == ItemsAt(es, a, b) + [e.item]
    ensures e.section != a || e.subSection != b ==> ItemsAt(es + [e], a, b) == ItemsAt(es, a, b)
  {
    assert (es + [e])[..|es|] == es;
    assert ItemsAt(es, a, b) + [] == ItemsAt(es, a, b);
  }

  lemma DedupSnoc(s: seq<string>, x: string)
    ensures Dedup(s + [x]) == if x in s then Dedup(s) else Dedup(s) + [x]
  {
    assert (s + [x])[..|s|] == s;
  }

  /** Items and subsections are only ever recorded under a section some entry names. */
  lemma {:induction false} AbsentSection<T>(es: seq<Entry<T>>, section: string, b: string)
    requires section !in Sections(es)
    ensures SubSections(es, section) == []
    ensures ItemsAt(es, section, b) == []
  {
    if es != [] {
      var init := es[..|es| - 1];
      var e := es[|es| - 1];
      assert es == init + [e];
      SectionsSnoc(init, e);
      SubSectionsSnoc(init, e, section);
      ItemsAtSnoc(init, e, section, b);
      AbsentSection(init, section, b);
    }
  }

  /** Items under a non-empty subsection are only recorded once that subsection is named. */
  lemma {:induction false} AbsentSubSection<T>(es: seq<Entry<T>>, section: string, subSection: string)
    requires subSection != "" && subSection !in SubSections(es, section)
    ensures ItemsAt(es, section, subSection) == []
  {
    if es != [] {
      var init := es[..|es| - 1];
      var e := es[|es| - 1];
      assert es == init + [e];
      SubSectionsSnoc(init, e, section);
      ItemsAtSnoc(init, e, section, subSection);
      AbsentSubSection(init, section, subSection);
    }
  }

  /** A group of another section is not affected by a new entry. */
  lemma OtherGroupUnaffected<T>(g: Group<T>, es: seq<Entry<T>>, e: Entry<T>)
    requires DescribesGroup(g, es) && g.name != e.section
    ensures DescribesGroup(g, es + [e])
  {
    SubSectionsSnoc(es, e, g.name);
    ItemsAtSnoc(es, e, g.name, "");
    forall k | 0 <= k < |g.subGroups|
      ensures g.subGroups[k].items == ItemsAt(es + [e], g.name, g.subGroups[k].name)
    {
      ItemsAtSnoc(es, e, g.name, g.subGroups[k].name);
    }
  }

  /** An entry without subsection goes at the end of its group's own items. */
  lemma ItemPlaced<T>(g: Group<T>, es: seq<Entry<T>>, e: Entry<T>)
    requires DescribesGroup(g, es) && g.name == e.section && e.subSection == ""
    ensures DescribesGroup(g.(items := g.items + [e.item]), es + [e])
  {
    SubSectionsSnoc(es, e, g.name);
    ItemsAtSnoc(es, e, g.name, "");
    forall k | 0 <= k < |g.subGroups|
      ensures g.subGroups[k].items == ItemsAt(es + [e], g.name, g.subGroups[k].name)
    {
      assert SubNames(g.subGroups)[k] in SubSections(es, g.name);
      ItemsAtSnoc(es, e, g.name, g.subGroups[k].name);
    }
  }

  /** An entry with a subsection goes at the end of that subsection's group, created if new. */
  lemma SubItemPlaced<T>(g: Group<T>, es: seq<Entry<T>>, e: Entry<T>)
    requires DescribesGroup(g, es) && g.name == e.section && e.subSection != ""
    ensures DescribesGroup(g.(subGroups := AddToSubGroups(g.subGroups, e.item, e.subSection)), es + [e])
  {
    var found := FindFirst(SubNames(g.subGroups), e.subSection);
    if found.Some? {
      SubItemJoins(g, es, e, found.value);
    } else {
      SubItemOpens(g, es, e);
    }
  }

  /** The case of `SubItemPlaced` where the subsection is the `j`-th one of the group. */
  lemma SubItemJoins<T>(g: Group<T>, es: seq<Entry<T>>, e: Entry<T>, j: nat)
    requires DescribesGroup(g, es) && g.name == e.section && e.subSection != ""
    requires j < |g.subGroups| && g.subGroups[j].name == e.subSection
    ensures DescribesGroup(g.(subGroups := g.subGroups[j := g.subGroups[j].(items := g.subGroups[j].items + [e.item])]), es + [e])
  {
    var subs := g.subGroups;
    var subs' := subs[j := subs[j].(items := subs[j].items + [e.item])];
    SubSectionsSnoc(es, e, g.name);
    ItemsAtSnoc(es, e, g.name, "");
    assert SubNames(subs)[j] == e.subSection;
    DedupSnoc(SubSections(es, g.name), e.subSection);
    assert SubNames(subs') == SubNames(subs);
    forall k | 0 <= k < |subs'|
      ensures subs'[k].items == ItemsAt(es + [e], g.name, subs'[k].name)
    {
      ItemsAtSnoc(es, e, g.name, subs[k].name);
    }
  }

  /** The case of `SubItemPlaced` where the subsection is new to the group. */
  lemma SubItemOpens<T>(g: Group<T>, es: seq<Entry<T>>, e: Entry<T>)
    requires DescribesGroup(g, es) && g.name == e.section && e.subSection != ""
    requires e.subSection !in SubNames(g.subGroups)
    ensures DescribesGroup(g.(subGroups := g.subGroups + [SubGroup(e.subSection, [e.item])]), es + [e])
  {
    var subs := g.subGroups;
    var subs' := subs + [SubGroup(e.subSection, [e.item])];
    SubSectionsSnoc(es, e, g.name);
    ItemsAtSnoc(es, e, g.name, "");
    DedupSnoc(SubSections(es, g.name), e.subSection);
    assert SubNames(subs') == SubNames(subs) + [e.subSection];
    forall k | 0 <= k < |subs'|
      ensures subs'[k].items == ItemsAt(es + [e], g.name, subs'[k].name)
    {
      if k == |subs| {
        AbsentSubSection(es, g.name, e.subSection);
        ItemsAtSnoc(es, e, g.name, e.subSection);
      } else {
        ItemsAtSnoc(es, e, g.name, subs[k].name);
      }
    }
  }

  /** The group a new section opens. */
  lemma NewGroupPlaced<T>(es: seq<Entry<T>>, e: Entry<T>)
    requires e.section !in Sections(es)
    ensures DescribesGroup(NewGroup(e), es + [e])
  {
    SubSectionsSnoc(es, e, e.section);
    ItemsAtSnoc(es, e, e.section, "");
    ItemsAtSnoc(es, e, e.section, e.subSection);
    AbsentSection(es, e.section, "");
    AbsentSection(es, e.section, e.subSection);
    DedupSnoc([], e.subSection);
    assert [] + [e.subSection] == [e.subSection];
  }

  lemma PlacedIntoDescribed<T>(g: Group<T>, es: seq<Entry<T>>, e: Entry<T>)
    requires DescribesGroup(g, es) && g.name == e.section
    ensures DescribesGroup(PlacedInto(g, e), es + [e])
  {
    if e.subSection == "" { ItemPlaced(g, es, e); } else { SubItemPlaced(g, es, e); }
  }

  lemma NamesAfterUpdate<T>(groups: seq<Group<T>>, j: nat, g: Group<T>)
    requires j < |groups| && g.name == groups[j].name
    ensures Names(groups[j := g]) == Names(groups)
  {
    assert forall i :: 0 <= i < |groups| ==> Names(groups[j := g])[i] == Names(groups)[i];
  }

  /** `Place` when the entry's section is the `j`-th group. */
  lemma PlaceFills<T>(groups: seq<Group<T>>, e: Entry<T>, j: nat)
    requires FindFirst(Names(groups), e.section).Some? && FindFirst(Names(groups), e.section).value == j
    ensures j < |groups|
    ensures Place(groups, e) == groups[j := PlacedInto(groups[j], e)]
  {
  }

  /** `Place` when no group has the entry's section. */
  lemma PlaceOpens<T>(groups: seq<Group<T>>, e: Entry<T>)
    requires FindFirst(Names(groups), e.section).None?
    ensures Place(groups, e) == groups + [NewGroup(e)]
  {
  }

  /** One pass of the loop, into a section already present. */
  lemma PlaceIntoGroup<T>(groups: seq<Group<T>>, es: seq<Entry<T>>, e: Entry<T>, j: nat)
    requires Describes(groups, es)
    requires FindFirst(Names(groups), e.section).Some? && FindFirst(Names(groups), e.section).value == j
    ensures Describes(Place(groups, e), es + [e])
  {
    PlaceFills(groups, e, j);
    PlacedNamesKept(groups, es, e, j);
    PlacedIntoDescribed(groups[j], es, e);
    OtherGroupsUnaffected(groups, es, e, j);
  }

  /** Filling the `j`-th section keeps the section names those of the longer entry list. */
  lemma PlacedNamesKept<T>(groups: seq<Group<T>>, es: seq<Entry<T>>, e: Entry<T>, j: nat)
    requires Describes(groups, es) && j < |groups| && groups[j].name == e.section
    ensures Names(groups[j := PlacedInto(groups[j], e)]) == Dedup(Sections(es + [e]))
  {
    SectionsSnoc(es, e);
    DedupSnoc(Sections(es), e.section);
    NamesAfterUpdate(groups, j, PlacedInto(groups[j], e));
    assert Names(groups)[j] == e.section;
  }

  /** The sections other than the `j`-th do not see an entry of the `j`-th section. */
  lemma OtherGroupsUnaffected<T>(groups: seq<Group<T>>, es: seq<Entry<T>>, e: Entry<T>, j: nat)
    requires Describes(groups, es) && j < |groups| && groups[j].name == e.section
    ensures forall i :: 0 <= i < |groups| && i != j ==> DescribesGroup(groups[i], es + [e])
  {
    forall i | 0 <= i < |groups| && i != j
      ensures DescribesGroup(groups[i], es + [e])
    {
      assert Names(groups)[i] != Names(groups)[j];
      OtherGroupUnaffected(groups[i], es, e);
    }
  }

  /** One pass of the loop, opening a new section. */
  lemma PlaceNewGroup<T>(groups: seq<Group<T>>, es: seq<Entry<T>>, e: Entry<T>)
    requires Describes(groups, es)
    requires FindFirst(Names(groups), e.section).None?
    ensures Describes(Place(groups, e), es + [e])
  {
    SectionsSnoc(es, e);
    DedupSnoc(Sections(es), e.section);
    var r := Place(groups, e);
    assert r[..|groups|] == groups && |r| == |groups| + 1;
    assert Names(r) == Names(groups) + [e.section];
    forall i | 0 <= i < |r|
      ensures DescribesGroup(r[i], es + [e])
    {
      if i == |groups| {
        NewGroupPlaced(es, e);
      } else {
        assert r[i] == groups[i];
        assert Names(groups)[i] in Names(groups);
        OtherGroupUnaffected(groups[i], es, e);
      }
    }
  }

  /** One pass of the loop keeps the tree equal to its description. */
  lemma PlaceDescribes<T>(groups: seq<Group<T>>, es: seq<Entry<T>>, e: Entry<T>)
    requires Describes(groups, es)
    ensures Describes(Place(groups, e), es + [e])
  {
    match FindFirst(Names(groups), e.section)
    case Some(j) => PlaceIntoGroup(groups, es, e, j);
    case None => PlaceNewGroup(groups, es, e);
  }

  /**
   * The tree built item by item is the tree described directly: sections and subsections
   * in order of first appearance, names distinct at each level, items in input order.
   */
  lemma {:induction false} TreeDescribes<T>(es: seq<Entry<T>>)
    ensures Describes(Tree(es), es)
  {
    if es != [] {
      var init := es[..|es| - 1];
      assert es == init + [es[|es| - 1]];
      TreeDescribes(init);
      PlaceDescribes(Tree(init), init, es[|es| - 1]);
    }
  }

  // Every item is placed exactly once.

  function ItemsOf<T>(es: seq<Entry<T>>): (r: seq<ObservableItem<T>>)
    ensures |r| == |es| && forall k :: 0 <= k < |es| ==> r[k] == es[k].item
  {
    if es == [] then [] else ItemsOf(es[..|es| - 1]) + [es[|es| - 1].item]
  }

  function SubItems<T>(ss: seq<SubGroup<T>>): seq<ObservableItem<T>>
  {
    if ss == [] then [] else SubItems(ss[..|ss| - 1]) + ss[|ss| - 1].items
  }

  /** Every item a group holds, its own and those of its subgroups. */
  function GroupItems<T>(g: Group<T>): seq<ObservableItem<T>>
  {
    g.items + SubItems(g.subGroups)
  }

  /** Every item the tree holds. */
  function AllItems<T>(gs: seq<Group<T>>): seq<ObservableItem<T>>
  {
    if gs == [] then [] else AllItems(gs[..|gs| - 1]) + GroupItems(gs[|gs| - 1])
  }

  lemma Rebalance<X>(a: multiset<X>, b: multiset<X>, c: multiset<X>, d: multiset<X>, e: multiset<X>)
    requires a + b == c + d
    ensures (a + e) + b == (c + e) + d
  {
    calc {
      (a + e) + b;
      (a + b) + e;
      (c + d) + e;
      (c + e) + d;
    }
  }

  lemma {:induction false} SubItemsUpdate<T>(ss: seq<SubGroup<T>>, j: nat, x: SubGroup<T>)
    requires j < |ss|
    ensures multiset(SubItems(ss[j := x])) + multiset(ss[j].items) == multiset(SubItems(ss)) + multiset(x.items)
  {
    var n := |ss| - 1;
    var ss' := ss[j := x];
    assert SubItems(ss) == SubItems(ss[..n]) + ss[n].items;
    assert SubItems(ss') == SubItems(ss'[..n]) + ss'[n].items;
    if j == n {
      assert ss'[..n] == ss[..n];
    } else {
      assert ss'[..n] == ss[..n][j := x];
      assert ss[..n][j] == ss[j];
      SubItemsUpdate(ss[..n], j, x);
      Rebalance(multiset(SubItems(ss'[..n])), multiset(ss[j].items), multiset(SubItems(ss[..n])), multiset(x.items), multiset(ss[n].items));
    }
  }

  lemma {:induction false} AllItemsUpdate<T>(gs: seq<Group<T>>, j: nat, x: Group<T>)
    requires j < |gs|
    ensures multiset(AllItems(gs[j := x])) + multiset(GroupItems(gs[j])) == multiset(AllItems(gs)) + multiset(GroupItems(x))
  {
    var n := |gs| - 1;
    var gs' := gs[j := x];
    assert AllItems(gs) == AllItems(gs[..n]) + GroupItems(gs[n]);
    assert AllItems(gs') == AllItems(gs'[..n]) + GroupItems(gs'[n]);
    if j == n {
      assert gs'[..n] == gs[..n];
    } else {
      assert gs'[..n] == gs[..n][j := x];
      assert gs[..n][j] == gs[j];
      AllItemsUpdate(gs[..n], j, x);
      Rebalance(multiset(AllItems(gs'[..n])), multiset(GroupItems(gs[j])), multiset(AllItems(gs[..n])), multiset(GroupItems(x)), multiset(GroupItems(gs[n])));
    }
  }

  lemma Cancel<X>(a: multiset<X>, b: multiset<X>, c: multiset<X>, d: multiset<X>)
    requires a + b == c + (b + d)
    ensures a == c + d
  {
    forall x
      ensures a[x] == (c + d)[x]
    {
      assert (a + b)[x] == (c + (b + d))[x];
    }
  }

  lemma AddToSubGroupsAddsItem<T>(subs: seq<SubGroup<T>>, item: ObservableItem<T>, name: string)
    ensures multiset(SubItems(AddToSubGroups(subs, item, name))) == multiset(SubItems(subs)) + multiset{item}
  {
    var found := FindFirst(SubNames(subs), name);
    if found.Some? {
      var j := found.value;
      var x := subs[j].(items := subs[j].items + [item]);
      assert AddToSubGroups(subs, item, name) == subs[j := x];
      SubItemsUpdate(subs, j, x);
      assert multiset(x.items) == multiset(subs[j].items) + multiset{item};
      Cancel(multiset(SubItems(subs[j := x])), multiset(subs[j].items), multiset(SubItems(subs)), multiset{item});
    } else {
      var subs' := subs + [SubGroup(name, [item])];
      assert subs'[..|subs|] == subs;
      assert SubItems(subs') == SubItems(subs) + [item];
    }
  }

  lemma PlacedIntoAddsItem<T>(g: Group<T>, e: Entry<T>)
    ensures multiset(GroupItems(PlacedInto(g, e))) == multiset(GroupItems(g)) + multiset{e.item}
  {
    var x := PlacedInto(g, e);
    if e.subSection != "" {
      AddToSubGroupsAddsItem(g.subGroups, e.item, e.subSection);
      assert GroupItems(x) == g.items + SubItems(AddToSubGroups(g.subGroups, e.item, e.subSection));
    } else {
      assert GroupItems(x) == g.items + [e.item] + SubItems(g.subGroups);
    }
  }

  lemma PlaceAddsItem<T>(groups: seq<Group<T>>, e: Entry<T>)
    ensures multiset(AllItems(Place(groups, e))) == multiset(AllItems(groups)) + multiset{e.item}
  {
    var found := FindFirst(Names(groups), e.section);
    if found.Some? {
      var j := found.value;
      var x := PlacedInto(groups[j], e);
      assert Place(groups, e) == groups[j := x];
      AllItemsUpdate(groups, j, x);
      PlacedIntoAddsItem(groups[j], e);
      Cancel(multiset(AllItems(groups[j := x])), multiset(GroupItems(groups[j])), multiset(AllItems(groups)), multiset{e.item});
    } else {
      var groups' := groups + [NewGroup(e)];
      assert Place(groups, e) == groups';
      assert groups'[..|groups|] == groups;
      assert AllItems(groups') == AllItems(groups) + GroupItems(NewGroup(e));
      assert SubItems([SubGroup(e.subSection, [e.item])]) == [e.item] by {
        assert [SubGroup(e.subSection, [e.item])][..0] == [];
      }
      assert multiset(GroupItems(NewGroup(e))) == multiset{e.item};
    }
  }

  /** Every entry's item is in the tree exactly as many times as it occurs in the input. */
  lemma {:induction false} TreeHoldsEachItemOnce<T>(es: seq<Entry<T>>)
    ensures multiset(AllItems(Tree(es))) == multiset(ItemsOf(es))
  {
    if es != [] {
      var init := es[..|es| - 1];
      assert es == init + [es[|es| - 1]];
      TreeHoldsEachItemOnce(init);
      PlaceAddsItem(Tree(init), es[|es| - 1]);
    }
  }
}
