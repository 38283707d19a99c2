/**
 * The parsed `plugin.xml` tree, as the JDOM accessors the descriptor reader calls
 * present it. An element's character content is one string, standing for a single text
 * node: where JDOM splits it over several text nodes, `processReferencedClasses` trims
 * and scans each of them on its own, which this model does not capture. The parent of
 * an element is passed explicitly where the reader asks for it.
 */
module Xml {
  import opened Wrappers
  import opened JavaStrings

  datatype Element = Element(
    name: string,
    namespaceUri: string,
    attributes: map<string, string>,
    text: string,
    children: seq<Element>)

  /** The URI of JDOM's `Namespace.NO_NAMESPACE`. */
  const NoNamespace: string := ""

  /** `Element.getAttributeValue(name)`: `null` when the attribute is absent. */
  function AttributeValue(e: Element, attr: string): (r: Option<string>)
    ensures r.Some? <==> attr in e.attributes
    ensures r.Some? ==> r.value == e.attributes[attr]
  {
    if attr in e.attributes then Some(e.attributes[attr]) else None
  }

  /** `Element.getAttributeValue(name, default)`. */
  function AttributeValueOr(e: Element, attr: string, default: string): string {
    AttributeValue(e, attr).GetOr(default)
  }

  /** The children named `n` and in no namespace, in document order. */
  function Named(cs: seq<Element>, n: string): (r: seq<Element>)
    ensures |r| <= |cs|
  {
    if cs == [] then []
    else if cs[0].name == n && cs[0].namespaceUri == NoNamespace then [cs[0]] + Named(cs[1..], n)
    else Named(cs[1..], n)
  }

  /** `Named` keeps exactly the elements of `cs` with that name and no namespace. */
  lemma {:induction false} NamedSpec(cs: seq<Element>, n: string)
    ensures forall c :: c in Named(cs, n) ==> c in cs && c.name == n && c.namespaceUri == NoNamespace
    ensures forall c :: c in cs && c.name == n && c.namespaceUri == NoNamespace ==> c in Named(cs, n)
  {
    if cs != [] {
      NamedSpec(cs[1..], n);
      assert cs == [cs[0]] + cs[1..];
    }
  }

  /** The children so named, in order and with their multiplicity: filtering distributes over `+`. */
  lemma {:induction false} NamedAppend(a: seq<Element>, b: seq<Element>, n: string)
    ensures Named(a + b, n) == Named(a, n) + Named(b, n)
  {
    if a == [] {
      assert a + b == b;
    } else {
      assert (a + b)[0] == a[0] && (a + b)[1..] == a[1..] + b;
      NamedAppend(a[1..], b, n);
    }
  }

  /** The first child so named is the one at the least matching position. */
  lemma {:induction false} NamedFirst(cs: seq<Element>, n: string, k: nat)
    requires k < |cs| && cs[k].name == n && cs[k].namespaceUri == NoNamespace
    requires forall j :: 0 <= j < k ==> !(cs[j].name == n && cs[j].namespaceUri == NoNamespace)
    ensures Named(cs, n) != [] && Named(cs, n)[0] == cs[k]
  {
    if k > 0 {
      NamedFirst(cs[1..], n, k - 1);
    }
  }

  /** `Element.getChildren(name)`. */
  function ChildrenNamed(e: Element, n: string): seq<Element> {
    Named(e.children, n)
  }

  /** `Element.getChild(name)`: the first child so named, or `null`. */
  function Child(e: Element, n: string): (r: Option<Element>) {
    var cs := ChildrenNamed(e, n);
    if cs == [] then None else Some(cs[0])
  }

  /** `getChild` finds a child exactly when one has that name and no namespace. */
  lemma ChildSpec(e: Element, n: string)
    ensures Child(e, n).Some? <==> exists c :: c in e.children && c.name == n && c.namespaceUri == NoNamespace
    ensures Child(e, n).Some? ==>
      Child(e, n).value in e.children && Child(e, n).value.name == n && Child(e, n).value.namespaceUri == NoNamespace
  {
    var cs := ChildrenNamed(e, n);
    NamedSpec(e.children, n);
    if cs != [] {
      assert cs[0] in cs;
    }
  }

  /** `getChild` returns the child at the least position holding one with that name and no namespace. */
  lemma ChildIsFirst(e: Element, n: string, k: nat)
    requires k < |e.children| && e.children[k].name == n && e.children[k].namespaceUri == NoNamespace
    requires forall j :: 0 <= j < k ==> !(e.children[j].name == n && e.children[j].namespaceUri == NoNamespace)
    ensures Child(e, n) == Some(e.children[k])
  {
    NamedFirst(e.children, n, k);
  }

  /** `Element.getTextTrim()`. */
  function TextTrim(e: Element): string {
    Trim(e.text)
  }

  /** `Element.getTextNormalize()`. */
  function TextNormalize(e: Element): string {
    Normalize(e.text)
  }

  /** `Element.getChildText(name)`. */
  function ChildText(e: Element, n: string): Option<string> {
    match Child(e, n)
    case None => None
    case Some(c) => Some(c.text)
  }

  /** `Element.getChildTextTrim(name)`. */
  function ChildTextTrim(e: Element, n: string): Option<string> {
    match Child(e, n)
    case None => None
    case Some(c) => Some(TextTrim(c))
  }

  /**
   * The elements `Element.getDescendants()` visits, in document order: every element
   * strictly below `e`.
   */
  function Descendants(e: Element): seq<Element> {
    DescendantsOf(e.children)
  }

  function DescendantsOf(cs: seq<Element>): seq<Element> {
    if cs == [] then [] else [cs[0]] + Descendants(cs[0]) + DescendantsOf(cs[1..])
  }

  /** Every child is among the descendants. */
  lemma {:induction false} DescendantsOfContains(cs: seq<Element>)
    ensures forall c :: c in cs ==> c in DescendantsOf(cs)
  {
    if cs != [] {
      DescendantsOfContains(cs[1..]);
      assert cs == [cs[0]] + cs[1..];
    }
  }

  /** The descendants of a child are among the descendants visited. */
  lemma {:induction false} DescendantsOfClosed(cs: seq<Element>)
    ensures forall c, d :: c in cs && d in Descendants(c) ==> d in DescendantsOf(cs)
  {
    if cs != [] {
      DescendantsOfClosed(cs[1..]);
      assert cs == [cs[0]] + cs[1..];
    }
  }

  /** A descendant of a descendant is a descendant: the visit reaches every depth. */
  lemma {:induction false} DescendantsTransitive(e: Element)
    ensures forall d, x :: d in Descendants(e) && x in Descendants(d) ==> x in Descendants(e)
  {
    DescendantsOfTransitive(e.children);
  }

  lemma {:induction false} DescendantsOfTransitive(cs: seq<Element>)
    ensures forall d, x :: d in DescendantsOf(cs) && x in Descendants(d) ==> x in DescendantsOf(cs)
  {
    if cs != [] {
      DescendantsTransitive(cs[0]);
      DescendantsOfTransitive(cs[1..]);
      DescendantsOfClosed(cs);
    }
  }
}
