/**
 * `FilterUtilities<T>`: the design-option stage applied to the collector in place, then the
 * LINQ stages (family name, type name, level ids) and the final `Cast<T>()`.
 */
module FilterUtilities {
  import opened Wrappers
  import opened RevitModel

  /** `InvalidCastException`, thrown by `(FamilyInstance)`, `(FamilySymbol)` and `Cast<T>()`. */
  datatype CastError = InvalidCast

  /** The filter the option stage uses: the given one, or one for the active option. */
  function ResolveOptionFilter(document: Document, optionFilter: Option<OptionFilter>): OptionFilter
  {
    match optionFilter
    case Some(f) => f
    case None => OptionFilter(document.activeDesignOptionId, false)
  }

  /**
   * `AddOptionFilter`: when `useOptionFilter` holds, the collector is narrowed in place to
   * the elements that pass `optionFilter`, or, when that is null, a filter for the
   * document's active design option.  The returned collector is the one passed in.
   */
  method AddOptionFilter(
    document: Document,
    collector: FilteredElementCollector,
    useOptionFilter: bool,
    optionFilter: Option<OptionFilter>)
    returns (result: FilteredElementCollector)
    modifies collector`elements
    ensures result == collector
    ensures !useOptionFilter ==> collector.elements == old(collector.elements)
    ensures useOptionFilter && optionFilter.Some? ==>
      collector.elements == KeepPassing(collector.document, old(collector.elements), optionFilter.value)
    ensures useOptionFilter && optionFilter.None? ==>
      collector.elements ==
        KeepPassing(collector.document, old(collector.elements), OptionFilter(document.activeDesignOptionId, false))
  {
    var filter := optionFilter;
    if useOptionFilter {
      if filter.None? {
        var activeOptionId := document.activeDesignOptionId;
        filter := Some(OptionFilter(activeOptionId, false));
      }
      collector.WherePasses(filter.value);
    }
    result := collector;
  }

  /** What `AddOptionFilter` leaves in a collector over `document` that held `es`. */
  function OptionStage(
    document: Document, es: seq<Element>, useOptionFilter: bool, optionFilter: Option<OptionFilter>)
    : (r: seq<Element>)
    ensures !useOptionFilter ==> r == es
    ensures useOptionFilter ==>
      forall e :: e in r <==> e in es && document.optionFilterPasses(ResolveOptionFilter(document, optionFilter), e)
    ensures IsSubsequence(r, es)
  {
    if useOptionFilter then KeepPassing(document, es, ResolveOptionFilter(document, optionFilter))
    else SubsequenceReflexive(es); es
  }

  /** An element survives a skipped stage, or matches the stage's argument. */
  predicate FamilyMatches(e: Element, familyName: Option<string>)
  {
    familyName.None? || e.familyName == familyName
  }

  predicate NameMatches(e: Element, typeName: Option<string>)
  {
    typeName.None? || e.name == typeName.value
  }

  predicate LevelMatches(e: Element, levelIds: Option<seq<ElementId>>)
  {
    levelIds.None? || e.levelId in levelIds.value
  }

  predicate PassesInstanceStages(
    e: Element, familyName: Option<string>, typeName: Option<string>, levelIds: Option<seq<ElementId>>)
  {
    FamilyMatches(e, familyName) && NameMatches(e, typeName) && LevelMatches(e, levelIds)
  }

  predicate PassesTypeStages(e: Element, familyName: Option<string>, typeName: Option<string>)
  {
    FamilyMatches(e, familyName) && NameMatches(e, typeName)
  }

  /**
   * The family-name stage.  A null name skips it; otherwise every candidate is cast to a
   * family-bearing class, so one candidate without a family makes the whole query throw.
   */
  function FamilyStage(es: seq<Element>, familyName: Option<string>): (r: Result<seq<Element>, CastError>)
    ensures familyName.None? ==> r == Success(es)
    ensures familyName.Some? ==> (r.Failure? <==> exists e :: e in es && e.familyName.None?)
    ensures r.Success? ==> IsSubsequence(r.value, es)
    ensures r.Success? ==> forall e :: e in r.value <==> e in es && FamilyMatches(e, familyName)
  {
    match familyName
    case None => SubsequenceReflexive(es); Success(es)
    case Some(name) =>
      if forall e :: e in es ==> e.familyName.Some? then Success(Keep(es, FamilyNamed(name)))
      else Failure(InvalidCast)
  }

  /** The type-name stage: skipped when null, otherwise keeps exact (ordinal) name matches. */
  function TypeNameStage(es: seq<Element>, typeName: Option<string>): (r: seq<Element>)
    ensures typeName.None? ==> r == es
    ensures forall e :: e in r <==> e in es && NameMatches(e, typeName)
    ensures IsSubsequence(r, es)
  {
    match typeName
    case None => SubsequenceReflexive(es); es
    case Some(name) => Keep(es, Named(name))
  }

  /** The level stage: a null list skips it, an empty list keeps nothing. */
  function LevelStage(es: seq<Element>, levelIds: Option<seq<ElementId>>): (r: seq<Element>)
    ensures levelIds.None? ==> r == es
    ensures levelIds == Some([]) ==> r == []
    ensures forall e :: e in r <==> e in es && LevelMatches(e, levelIds)
    ensures IsSubsequence(r, es)
  {
    match levelIds
    case None => SubsequenceReflexive(es); es
    case Some(ids) =>
      var r := Keep(es, OnLevel(ids));
      assert ids == [] && r != [] ==> r[0] in r;
      r
  }

  /** `Cast<T>().ToList()`: `isT` is the run-time test "is an instance of T". */
  function CastStage(es: seq<Element>, isT: Element -> bool): (r: Result<seq<Element>, CastError>)
    ensures r.Success? <==> forall e :: e in es ==> isT(e)
    ensures r.Success? ==> r.value == es
  {
    if forall e :: e in es ==> isT(e) then Success(es) else Failure(InvalidCast)
  }

  /**
   * `ApplyInstanceFilters`.  The LINQ pipeline is lazy, but every candidate meets the
   * family cast before anything else, so the outcome (list or exception) is that of running
   * the stages one after another.
   */
  function ApplyInstanceFilters(
    es: seq<Element>,
    familyName: Option<string>,
    typeName: Option<string>,
    levelIds: Option<seq<ElementId>>,
    isT: Element -> bool)
    : (r: Result<seq<Element>, CastError>)
    ensures r.Failure? <==>
      || (familyName.Some? && exists e :: e in es && e.familyName.None?)
      || (exists e :: e in es && PassesInstanceStages(e, familyName, typeName, levelIds) && !isT(e))
    ensures r.Success? ==> IsSubsequence(r.value, es)
    ensures r.Success? ==>
      forall e :: e in r.value <==> e in es && PassesInstanceStages(e, familyName, typeName, levelIds)
  {
    match FamilyStage(es, familyName)
    case Failure(err) => Failure(err)
    case Success(byFamily) =>
      var byName := TypeNameStage(byFamily, typeName);
      var byLevel := LevelStage(byName, levelIds);
      SubsequenceTransitive(byLevel, byName, byFamily);
      SubsequenceTransitive(byLevel, byFamily, es);
      CastStage(byLevel, isT)
  }

  /** `ApplyTypeFilters`: the family-name and type-name stages, then `Cast<T>()`. */
  function ApplyTypeFilters(
    es: seq<Element>,
    familyName: Option<string>,
    typeName: Option<string>,
    isT: Element -> bool)
    : (r: Result<seq<Element>, CastError>)
    ensures r.Failure? <==>
      || (familyName.Some? && exists e :: e in es && e.familyName.None?)
      || (exists e :: e in es && PassesTypeStages(e, familyName, typeName) && !isT(e))
    ensures r.Success? ==> IsSubsequence(r.value, es)
    ensures r.Success? ==> forall e :: e in r.value <==> e in es && PassesTypeStages(e, familyName, typeName)
  {
    match FamilyStage(es, familyName)
    case Failure(err) => Failure(err)
    case Success(byFamily) =>
      var byName := TypeNameStage(byFamily, typeName);
      SubsequenceTransitive(byName, byFamily, es);
      CastStage(byName, isT)
  }

  /**
   * `AddInstanceFilters`: the option stage narrows the collector in place, then the LINQ
   * stages run over what it holds.
   */
  method AddInstanceFilters(
    document: Document,
    collector: FilteredElementCollector,
    familyName: Option<string>,
    typeName: Option<string>,
    levelIdsToFilterBy: Option<seq<ElementId>>,
    useOptionFilter: bool,
    optionFilter: Option<OptionFilter>,
    isT: Element -> bool)
    returns (r: Result<seq<Element>, CastError>)
    modifies collector`elements
    ensures collector.elements ==
      if useOptionFilter then KeepPassing(collector.document, old(collector.elements), ResolveOptionFilter(document, optionFilter))
      else old(collector.elements)
    ensures r == ApplyInstanceFilters(collector.elements, familyName, typeName, levelIdsToFilterBy, isT)
  {
    var _ := AddOptionFilter(document, collector, useOptionFilter, optionFilter);
    r := ApplyInstanceFilters(collector.elements, familyName, typeName, levelIdsToFilterBy, isT);
  }

  /** `AddTypeFilters`: the type stages over what the collector holds. */
  method AddTypeFilters(
    collector: FilteredElementCollector,
    familyName: Option<string>,
    typeName: Option<string>,
    isT: Element -> bool)
    returns (r: Result<seq<Element>, CastError>)
    ensures r == ApplyTypeFilters(collector.elements, familyName, typeName, isT)
  {
    r := ApplyTypeFilters(collector.elements, familyName, typeName, isT);
  }

  /** The test of the family-name stage, none when its argument is null; likewise below. */
  function FamilyCriteria(familyName: Option<string>): seq<Criterion>
  {
    match familyName case Some(n) => [FamilyNamed(n)] case None => []
  }

  function NameCriteria(typeName: Option<string>): seq<Criterion>
  {
    match typeName case Some(n) => [Named(n)] case None => []
  }

  function LevelCriteria(levelIds: Option<seq<ElementId>>): seq<Criterion>
  {
    match levelIds case Some(ids) => [OnLevel(ids)] case None => []
  }

  /** The tests of the instance LINQ stages whose argument is not null, in pipeline order. */
  function InstanceCriteria(
    familyName: Option<string>, typeName: Option<string>, levelIds: Option<seq<ElementId>>)
    : seq<Criterion>
  {
    FamilyCriteria(familyName) + NameCriteria(typeName) + LevelCriteria(levelIds)
  }

  /** Runs the filters `cs` one after another. */
  function KeepEach(es: seq<Element>, cs: seq<Criterion>): seq<Element>
    decreases |cs|
  {
    if cs == [] then es else KeepEach(Keep(es, cs[0]), cs[1..])
  }

  predicate HoldsAll(cs: seq<Criterion>, e: Element)
  {
    forall c :: c in cs ==> Holds(c, e)
  }

  /** One pass keeping the elements that satisfy every filter of `cs`. */
  function KeepAll(es: seq<Element>, cs: seq<Criterion>): seq<Element>
  {
    if es == [] then []
    else (if HoldsAll(cs, es[0]) then [es[0]] else []) + KeepAll(es[1..], cs)
  }

  lemma {:induction false} KeepThenKeepAll(es: seq<Element>, c: Criterion, cs: seq<Criterion>)
    ensures KeepAll(Keep(es, c), cs) == KeepAll(es, [c] + cs)
  {
    if es != [] {
      KeepThenKeepAll(es[1..], c, cs);
      var rest := Keep(es[1..], c);
      if Holds(c, es[0]) {
        assert ([es[0]] + rest)[1..] == rest;
      }
    }
  }

  /** Filtering stage by stage is filtering once by the conjunction of the stages. */
  lemma {:induction false} KeepEachIsKeepAll(es: seq<Element>, cs: seq<Criterion>)
    ensures KeepEach(es, cs) == KeepAll(es, cs)
    decreases |cs|
  {
    if cs == [] {
      KeepAllTrue(es);
    } else {
      KeepEachIsKeepAll(Keep(es, cs[0]), cs[1..]);
      KeepThenKeepAll(es, cs[0], cs[1..]);
      assert [cs[0]] + cs[1..] == cs;
    }
  }

  lemma {:induction false} KeepAllTrue(es: seq<Element>)
    ensures KeepAll(es, []) == es
  {
    if es != [] {
      KeepAllTrue(es[1..]);
    }
  }

  lemma {:induction false} KeepAllSameTests(es: seq<Element>, cs1: seq<Criterion>, cs2: seq<Criterion>)
    requires forall c :: c in cs1 <==> c in cs2
    ensures KeepAll(es, cs1) == KeepAll(es, cs2)
  {
    if es != [] {
      KeepAllSameTests(es[1..], cs1, cs2);
    }
  }

  /** Running the same filters in any other order gives the same elements in the same order. */
  lemma StageOrderIrrelevant(es: seq<Element>, cs1: seq<Criterion>, cs2: seq<Criterion>)
    requires multiset(cs1) == multiset(cs2)
    ensures KeepEach(es, cs1) == KeepEach(es, cs2)
  {
    forall c ensures c in cs1 <==> c in cs2 {
      assert c in cs1 <==> c in multiset(cs1);
      assert c in cs2 <==> c in multiset(cs2);
    }
    KeepEachIsKeepAll(es, cs1);
    KeepEachIsKeepAll(es, cs2);
    KeepAllSameTests(es, cs1, cs2);
  }

  lemma KeepEachOne(es: seq<Element>, c: Criterion)
    ensures KeepEach(es, [c]) == Keep(es, c)
  {
  }

  /**
   * The instance stages, when they do not throw, are the stage-by-stage filter over their
   * active tests, hence equal to that filter in any order of the tests.
   */
  lemma InstanceStagesCommute(
    es: seq<Element>,
    familyName: Option<string>,
    typeName: Option<string>,
    levelIds: Option<seq<ElementId>>,
    isT: Element -> bool,
    order: seq<Criterion>)
    requires multiset(order) == multiset(InstanceCriteria(familyName, typeName, levelIds))
    requires ApplyInstanceFilters(es, familyName, typeName, levelIds, isT).Success?
    ensures ApplyInstanceFilters(es, familyName, typeName, levelIds, isT).value == KeepEach(es, order)
  {
    var f, n, l := FamilyCriteria(familyName), NameCriteria(typeName), LevelCriteria(levelIds);
    var byFamily := FamilyStage(es, familyName).value;
    var byName := TypeNameStage(byFamily, typeName);
    var byLevel := LevelStage(byName, levelIds);
    if familyName.Some? { KeepEachOne(es, f[0]); }
    assert byFamily == KeepEach(es, f);
    if typeName.Some? { KeepEachOne(byFamily, n[0]); }
    assert byName == KeepEach(byFamily, n);
    if levelIds.Some? { KeepEachOne(byName, l[0]); }
    assert byLevel == KeepEach(byName, l);
    KeepEachAppend(es, f, n);
    KeepEachAppend(es, f + n, l);
    assert byLevel == KeepEach(es, InstanceCriteria(familyName, typeName, levelIds));
    StageOrderIrrelevant(es, InstanceCriteria(familyName, typeName, levelIds), order);
  }

  lemma {:induction false} KeepEachAppend(es: seq<Element>, cs1: seq<Criterion>, cs2: seq<Criterion>)
    ensures KeepEach(es, cs1 + cs2) == KeepEach(KeepEach(es, cs1), cs2)
    decreases |cs1|
  {
    if cs1 == [] {
      assert cs1 + cs2 == cs2;
    } else {
      KeepEachAppend(Keep(es, cs1[0]), cs1[1..], cs2);
      assert (cs1 + cs2)[1..] == cs1[1..] + cs2;
    }
  }
}
