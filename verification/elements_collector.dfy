/**
 * `ElementsCollector`: element instances or element types of one category, narrowed by the
 * optional arguments.  `isT` stands for the type argument `T`: it tells which elements the
 * final `Cast<T>()` accepts.
 */
module ElementsCollector {
  import opened Wrappers
  import opened RevitModel
  import opened FilterUtilities

  /** What the collector holds after `WhereElementIsNotElementType().OfCategory(category)`. */
  function InstanceScan(document: Document, category: Category): (r: seq<Element>)
    ensures forall e :: e in r <==> e in document.elements && !e.isElementType && e.category == category
    ensures IsSubsequence(r, document.elements)
  {
    var r := Keep(Keep(document.elements, NotElementType), Criterion.OfCategory(category));
    SubsequenceTransitive(r, Keep(document.elements, NotElementType), document.elements);
    r
  }

  /** What the collector holds after `WhereElementIsElementType().OfCategory(category)`. */
  function TypeScan(document: Document, category: Category): (r: seq<Element>)
    ensures forall e :: e in r <==> e in document.elements && e.isElementType && e.category == category
    ensures IsSubsequence(r, document.elements)
  {
    var r := Keep(Keep(document.elements, ElementType), Criterion.OfCategory(category));
    SubsequenceTransitive(r, Keep(document.elements, ElementType), document.elements);
    r
  }

  /** The outcome of an instance query: the scan, the option stage, the LINQ stages. */
  function InstancesOf(
    isT: Element -> bool,
    document: Document,
    category: Category,
    familyName: Option<string>,
    typeName: Option<string>,
    levelIdsToFilterBy: Option<seq<ElementId>>,
    useOptionFilter: bool,
    optionFilter: Option<OptionFilter>)
    : Result<seq<Element>, CastError>
  {
    ApplyInstanceFilters(
      OptionStage(document, InstanceScan(document, category), useOptionFilter, optionFilter),
      familyName, typeName, levelIdsToFilterBy, isT)
  }

  /** The outcome of a type query: the scan, then the LINQ stages (no option, no level). */
  function TypesOf(
    isT: Element -> bool,
    document: Document,
    category: Category,
    familyName: Option<string>,
    typeName: Option<string>)
    : Result<seq<Element>, CastError>
  {
    ApplyTypeFilters(TypeScan(document, category), familyName, typeName, isT)
  }

  /**
   * `InstancesByCategory<T>`: the instances of `category` that pass the option stage and
   * every non-null LINQ stage, in document order, or the cast exception.
   */
  method InstancesByCategory(
    isT: Element -> bool,
    document: Document,
    category: Category,
    familyName: Option<string> := None,
    typeName: Option<string> := None,
    levelIdsToFilterBy: Option<seq<ElementId>> := None,
    useOptionFilter: bool := true,
    optionFilter: Option<OptionFilter> := None)
    returns (r: Result<seq<Element>, CastError>)
    ensures r == InstancesOf(isT, document, category, familyName, typeName, levelIdsToFilterBy,
                             useOptionFilter, optionFilter)
    ensures r.Success? ==> IsSubsequence(r.value, document.elements)
    ensures r.Success? ==> forall e :: e in r.value <==>
      && e in document.elements && !e.isElementType && e.category == category
      && (useOptionFilter ==> document.optionFilterPasses(ResolveOptionFilter(document, optionFilter), e))
      && PassesInstanceStages(e, familyName, typeName, levelIdsToFilterBy)
  {
    var collector := new FilteredElementCollector(document);
    collector.WhereElementIsNotElementType();
    collector.OfCategory(category);
    assert collector.elements == InstanceScan(document, category);
    r := AddInstanceFilters(document, collector, familyName, typeName, levelIdsToFilterBy,
                            useOptionFilter, optionFilter, isT);
    ghost var scan := InstanceScan(document, category);
    ghost var optioned := OptionStage(document, scan, useOptionFilter, optionFilter);
    if r.Success? {
      SubsequenceTransitive(r.value, optioned, scan);
      SubsequenceTransitive(r.value, scan, document.elements);
    }
  }

  /**
   * `TypesByCategory<T>`: the element types of `category` that pass every non-null LINQ
   * stage, in document order, or the cast exception.
   */
  method TypesByCategory(
    isT: Element -> bool,
    document: Document,
    category: Category,
    familyName: Option<string> := None,
    typeName: Option<string> := None)
    returns (r: Result<seq<Element>, CastError>)
    ensures r == TypesOf(isT, document, category, familyName, typeName)
    ensures r.Success? ==> IsSubsequence(r.value, document.elements)
    ensures r.Success? ==> forall e :: e in r.value <==>
      && e in document.elements && e.isElementType && e.category == category
      && PassesTypeStages(e, familyName, typeName)
  {
    var collector := new FilteredElementCollector(document);
    collector.WhereElementIsElementType();
    collector.OfCategory(category);
    assert collector.elements == TypeScan(document, category);
    r := AddTypeFilters(collector, familyName, typeName, isT);
    if r.Success? {
      SubsequenceTransitive(r.value, TypeScan(document, category), document.elements);
    }
  }

  /** With the option stage on, a null filter means the document's active design option. */
  lemma DefaultOptionIsActiveOption(
    isT: Element -> bool, document: Document, category: Category,
    familyName: Option<string>, typeName: Option<string>, levelIds: Option<seq<ElementId>>)
    ensures InstancesOf(isT, document, category, familyName, typeName, levelIds, true, None)
         == InstancesOf(isT, document, category, familyName, typeName, levelIds, true,
                        Some(OptionFilter(document.activeDesignOptionId, false)))
  {
  }

  /** With the option stage off, whatever filter is passed is ignored. */
  lemma UnusedOptionFilterIgnored(
    isT: Element -> bool, document: Document, category: Category,
    familyName: Option<string>, typeName: Option<string>, levelIds: Option<seq<ElementId>>,
    f1: Option<OptionFilter>, f2: Option<OptionFilter>)
    ensures InstancesOf(isT, document, category, familyName, typeName, levelIds, false, f1)
         == InstancesOf(isT, document, category, familyName, typeName, levelIds, false, f2)
  {
  }

  /**
   * No optional filter, the option stage off, and `T` accepting every element: the query
   * returns every instance of the category, in document order.
   */
  lemma UnfilteredInstancesAreScan(isT: Element -> bool, document: Document, category: Category)
    requires forall e :: e in document.elements ==> isT(e)
    ensures InstancesOf(isT, document, category, None, None, None, false, None)
         == Success(InstanceScan(document, category))
  {
  }

  /** The same for element types. */
  lemma UnfilteredTypesAreScan(isT: Element -> bool, document: Document, category: Category)
    requires forall e :: e in document.elements ==> isT(e)
    ensures TypesOf(isT, document, category, None, None) == Success(TypeScan(document, category))
  {
  }

  /**
   * An instance query and a type query over the same document never share an element:
   * one returns instances only, the other types only.
   */
  lemma InstancesAndTypesDisjoint(
    isT: Element -> bool, document: Document, category: Category,
    familyName: Option<string>, typeName: Option<string>, levelIds: Option<seq<ElementId>>,
    useOptionFilter: bool, optionFilter: Option<OptionFilter>,
    typeFamilyName: Option<string>, typeTypeName: Option<string>, e: Element)
    requires InstancesOf(isT, document, category, familyName, typeName, levelIds,
                         useOptionFilter, optionFilter).Success?
    requires TypesOf(isT, document, category, typeFamilyName, typeTypeName).Success?
    ensures !(e in InstancesOf(isT, document, category, familyName, typeName, levelIds,
                               useOptionFilter, optionFilter).value
              && e in TypesOf(isT, document, category, typeFamilyName, typeTypeName).value)
  {
  }

  /**
   * A family-name query throws as soon as the candidates include an element without a
   * family (a wall, a floor), whatever the other arguments.
   */
  lemma FamilyFilterOnNonFamilyThrows(
    isT: Element -> bool, document: Document, category: Category,
    familyName: string, typeName: Option<string>, levelIds: Option<seq<ElementId>>,
    useOptionFilter: bool, optionFilter: Option<OptionFilter>, e: Element)
    requires e in OptionStage(document, InstanceScan(document, category), useOptionFilter, optionFilter)
    requires e.familyName.None?
    ensures InstancesOf(isT, document, category, Some(familyName), typeName, levelIds,
                        useOptionFilter, optionFilter) == Failure(InvalidCast)
  {
  }
}
