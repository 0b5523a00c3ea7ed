/**
 * The part of the Revit document that the collectors read, and the filtered element
 * collector they drive.  A document is its element table in the collector's iteration
 * order, the id of its active design option, and the meaning the host gives to a
 * design-option filter, which the library never inspects.
 */
module RevitModel {
  import opened Wrappers

  /** `ElementId`, compared by value. */
  type ElementId = int

  /** A `BuiltInCategory` value such as `OST_Walls`. */
  type Category = int

  /**
   * What the collectors can observe of a Revit element.  `familyName` is present exactly
   * when the element is a `FamilyInstance` (an instance) or a `FamilySymbol` (a type): it is
   * `Symbol.Family.Name` or `FamilyName` respectively.  Any other element fails the casts
   * made by the family-name filters.
   */
  datatype Element = Element(
    id: ElementId,
    category: Category,
    isElementType: bool,
    name: string,
    familyName: Option<string>,
    levelId: ElementId)

  /**
   * `ElementDesignOptionFilter(designOptionId, inverted)`; the one-argument constructor the
   * library calls leaves it not inverted.  Which elements it passes belongs to the host (see
   * `Document`).
   */
  datatype OptionFilter = OptionFilter(designOptionId: ElementId, inverted: bool)

  /**
   * A document: its elements, `DesignOption.GetActiveDesignOptionId(document)`, and
   * whether an element passes a given design-option filter (host semantics, left abstract).
   */
  datatype Document = Document(
    elements: seq<Element>,
    activeDesignOptionId: ElementId,
    optionFilterPasses: (OptionFilter, Element) -> bool)

  /** The per-element tests of the collectors and of the LINQ stages that follow them. */
  datatype Criterion =
    | NotElementType               // WhereElementIsNotElementType()
    | ElementType                  // WhereElementIsElementType()
    | OfCategory(category: Category)
    | FamilyNamed(familyName: string)
    | Named(typeName: string)      // ordinal, case-sensitive string equality
    | OnLevel(levelIds: seq<ElementId>)

  predicate Holds(c: Criterion, e: Element)
  {
    match c
    case NotElementType => !e.isElementType
    case ElementType => e.isElementType
    case OfCategory(category) => e.category == category
    case FamilyNamed(familyName) => e.familyName == Some(familyName)
    case Named(typeName) => e.name == typeName
    case OnLevel(levelIds) => e.levelId in levelIds
  }

  /** `a` is `b` with some elements removed, the rest in their original order. */
  ghost predicate IsSubsequence<X>(a: seq<X>, b: seq<X>)
    decreases |b|
  {
    a == [] || (b != [] && ((a[0] == b[0] && IsSubsequence(a[1..], b[1..])) || IsSubsequence(a, b[1..])))
  }

  lemma {:induction false} SubsequenceReflexive<X>(a: seq<X>)
    ensures IsSubsequence(a, a)
    decreases |a|
  {
    if a != [] {
      SubsequenceReflexive(a[1..]);
    }
  }

  lemma {:induction false} SubsequenceTransitive<X>(a: seq<X>, b: seq<X>, c: seq<X>)
    requires IsSubsequence(a, b) && IsSubsequence(b, c)
    ensures IsSubsequence(a, c)
    decreases |c|
  {
    if a != [] {
      if IsSubsequence(b, c[1..]) {
        SubsequenceTransitive(a, b, c[1..]);
      } else if a[0] == b[0] && IsSubsequence(a[1..], b[1..]) {
        SubsequenceTransitive(a[1..], b[1..], c[1..]);
      } else {
        SubsequenceTransitive(a, b[1..], c[1..]);
      }
    }
  }

  /** The elements of `es` that satisfy `c`, in their original order. */
  function Keep(es: seq<Element>, c: Criterion): (r: seq<Element>)
    ensures forall e :: e in r <==> e in es && Holds(c, e)
    ensures IsSubsequence(r, es)
  {
    if es == [] then []
    else
      var rest := Keep(es[1..], c);
      if Holds(c, es[0]) then [es[0]] + rest else rest
  }

  /** The elements of `es` that pass the design-option filter `f` in `doc`, in order. */
  function KeepPassing(doc: Document, es: seq<Element>, f: OptionFilter): (r: seq<Element>)
    ensures forall e :: e in r <==> e in es && doc.optionFilterPasses(f, e)
    ensures IsSubsequence(r, es)
  {
    if es == [] then []
    else
      var rest := KeepPassing(doc, es[1..], f);
      if doc.optionFilterPasses(f, es[0]) then [es[0]] + rest else rest
  }

  /**
   * `FilteredElementCollector`: a mutable view of a document's elements that each
   * quick or slow filter narrows in place.
   */
  class FilteredElementCollector {
    const document: Document
    var elements: seq<Element>

    constructor (document: Document)
      ensures this.document == document && elements == document.elements
    {
      this.document := document;
      elements := document.elements;
    }

    method WhereElementIsNotElementType()
      modifies this`elements
      ensures elements == Keep(old(elements), NotElementType)
    {
      elements := Keep(elements, NotElementType);
    }

    method WhereElementIsElementType()
      modifies this`elements
      ensures elements == Keep(old(elements), ElementType)
    {
      elements := Keep(elements, ElementType);
    }

    method OfCategory(category: Category)
      modifies this`elements
      ensures elements == Keep(old(elements), Criterion.OfCategory(category))
    {
      elements := Keep(elements, Criterion.OfCategory(category));
    }

    method WherePasses(filter: OptionFilter)
      modifies this`elements
      ensures elements == KeepPassing(document, old(elements), filter)
    {
      elements := KeepPassing(document, elements, filter);
    }
  }
}
