/**
 * The part of the browser's element tree that `getColorAtPoint` reads: per
 * element its tag name, its attributes, its computed style and its parent.
 * `depth` is a measure that strictly decreases from an element to its
 * parent, so every walk up the `parentElement` chain ends.
 */
module DomTree {
  import opened Options

  type Id = nat

  datatype Element = Element(
    tag: string,
    attributes: map<string, string>,
    style: map<string, string>,
    parent: Option<Id>,
    depth: nat)

  datatype Document = Document(elements: map<Id, Element>)

  /** Every parent is an element of the document, closer to the root. */
  predicate Valid(doc: Document) {
    forall id {:trigger ParentIsCloserToRoot(doc, id)} | id in doc.elements :: ParentIsCloserToRoot(doc, id)
  }

  predicate ParentIsCloserToRoot(doc: Document, id: Id)
    requires id in doc.elements
  {
    match doc.elements[id].parent
    case None => true
    case Some(p) => p in doc.elements && doc.elements[p].depth < doc.elements[id].depth
  }

  /**
   * `element.getAttribute(name)`. A missing attribute (`null`) and an empty
   * one are both falsy wherever the result is used, so both read as "".
   */
  function Attribute(doc: Document, id: Id, name: string): string
    requires id in doc.elements
  {
    var attributes := doc.elements[id].attributes;
    if name in attributes then attributes[name] else ""
  }

  /** `getComputedStyle(element)[property]`; a property the style does not list reads as "". */
  function ComputedStyle(doc: Document, id: Id, property: string): string
    requires id in doc.elements
  {
    var style := doc.elements[id].style;
    if property in style then style[property] else ""
  }

  /**
   * The element followed by its `parentElement` chain up to the root: the
   * sequence of elements the walks of `getColorAtPoint` visit.
   */
  function Ancestry(doc: Document, id: Id): (chain: seq<Id>)
    requires Valid(doc) && id in doc.elements
    ensures |chain| > 0 && chain[0] == id
    ensures forall i :: 0 <= i < |chain| ==> chain[i] in doc.elements
    decreases doc.elements[id].depth
  {
    assert ParentIsCloserToRoot(doc, id);
    match doc.elements[id].parent
    case None => [id]
    case Some(p) => [id] + Ancestry(doc, p)
  }

  /** Each element of the chain is followed by its `parentElement`; the last has none. */
  lemma {:induction false} AncestryLink(doc: Document, id: Id, i: nat)
    requires Valid(doc) && id in doc.elements && i < |Ancestry(doc, id)|
    ensures doc.elements[Ancestry(doc, id)[i]].parent ==
      if i + 1 < |Ancestry(doc, id)| then Some(Ancestry(doc, id)[i + 1]) else None
    decreases i
  {
    assert ParentIsCloserToRoot(doc, id);
    match doc.elements[id].parent
    case None =>
    case Some(p) =>
      if i > 0 {
        AncestryLink(doc, p, i - 1);
      }
  }
}
