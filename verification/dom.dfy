/**
 * The element tree a lenient HTML parser hands to the bookmark parser.
 * Building it from text is outside this model: an `Element` is what the
 * parsed document exposes through `tagName`, `getAttribute`, `textContent`
 * and its element children (`children`, `firstElementChild`,
 * `nextElementSibling`).
 */
module Dom {
  import opened Wrappers

  /**
   * `tag` is the upper-case `tagName` of an HTML element; `attrs` maps
   * lower-case attribute names to values; `text` is `textContent`;
   * `children` are the element children in document order.
   */
  datatype Element = Element(tag: string, attrs: map<string, string>, text: string, children: seq<Element>)

  /** `getAttribute(name)`: `None` stands for `null`. */
  function GetAttribute(e: Element, name: string): (r: Option<string>)
    ensures r.Some? <==> name in e.attrs
    ensures r.Some? ==> r.value == e.attrs[name]
  {
    if name in e.attrs then Some(e.attrs[name]) else None
  }

  /** `e` and all its descendants in document order (pre-order). */
  function Preorder(e: Element): (r: seq<Element>)
    ensures |r| > 0 && r[0] == e
  {
    [e] + PreorderAll(e.children)
  }

  function PreorderAll(es: seq<Element>): seq<Element> {
    if es == [] then [] else Preorder(es[0]) + PreorderAll(es[1..])
  }

  /**
   * The elements of `es` whose tag is `tag`, in their order: the first of
   * them is the first element of `es` with the tag.
   */
  function WithTag(es: seq<Element>, tag: string): (r: seq<Element>)
    ensures |r| <= |es|
    ensures forall x | x in r :: x in es && x.tag == tag
    ensures forall x | x in es && x.tag == tag :: x in r
    ensures r != [] <==> FirstWithTag(es, tag).Some?
    ensures r != [] ==> r[0] == es[FirstWithTag(es, tag).value]
  {
    if es == [] then []
    else (if es[0].tag == tag then [es[0]] else []) + WithTag(es[1..], tag)
  }

  /**
   * `querySelectorAll(tag)` on a document whose element is `doc`: the
   * elements of the document with the tag, the first of them being the
   * first in document order.
   */
  function QuerySelectorAll(doc: Element, tag: string): (r: seq<Element>)
    ensures forall x | x in r :: x in Preorder(doc) && x.tag == tag
    ensures forall x | x in Preorder(doc) && x.tag == tag :: x in r
    ensures r != [] <==> FirstWithTag(Preorder(doc), tag).Some?
    ensures r != [] ==> r[0] == Preorder(doc)[FirstWithTag(Preorder(doc), tag).value]
  {
    WithTag(Preorder(doc), tag)
  }

  /** `e` or some element below it has the tag. */
  predicate HasTag(e: Element, tag: string) {
    e.tag == tag || exists i | 0 <= i < |e.children| :: HasTag(e.children[i], tag)
  }

  /** The first element of `es` with the tag, as the `nextElementSibling` walk finds it. */
  function FirstWithTag(es: seq<Element>, tag: string): (r: Option<nat>)
    ensures r.Some? ==> r.value < |es| && es[r.value].tag == tag
    ensures r.Some? ==> forall j | 0 <= j < r.value :: es[j].tag != tag
    ensures r.None? ==> forall j | 0 <= j < |es| :: es[j].tag != tag
  {
    if es == [] then None
    else if es[0].tag == tag then Some(0)
    else match FirstWithTag(es[1..], tag)
      case None => None
      case Some(k) => Some(k + 1)
  }

  /** A selector query finds nothing exactly when no element of the document carries the tag. */
  lemma {:induction false} QuerySelectorAllEmpty(doc: Element, tag: string)
    ensures QuerySelectorAll(doc, tag) == [] <==> !HasTag(doc, tag)
  {
    PreorderHasTag(doc, tag);
    var q := QuerySelectorAll(doc, tag);
    if q != [] {
      assert q[0] in Preorder(doc);
    }
  }

  lemma {:induction false} PreorderHasTag(e: Element, tag: string)
    ensures HasTag(e, tag) <==> exists x | x in Preorder(e) :: x.tag == tag
    decreases e, 1
  {
    PreorderAllHasTag(e.children, tag);
    var p := Preorder(e);
    assert forall x | x in p :: x == e || x in PreorderAll(e.children);
  }

  lemma {:induction false} PreorderAllHasTag(es: seq<Element>, tag: string)
    ensures (exists i | 0 <= i < |es| :: HasTag(es[i], tag))
        <==> exists x | x in PreorderAll(es) :: x.tag == tag
    decreases es, 0
  {
    if es != [] {
      PreorderHasTag(es[0], tag);
      PreorderAllHasTag(es[1..], tag);
      var p := PreorderAll(es);
      assert forall x | x in p :: x in Preorder(es[0]) || x in PreorderAll(es[1..]);
      assert forall i | 0 < i < |es| :: es[i] == es[1..][i - 1];
      if exists x | x in PreorderAll(es[1..]) :: x.tag == tag {
        var i :| 0 <= i < |es[1..]| && HasTag(es[1..][i], tag);
        assert HasTag(es[i + 1], tag);
      }
    }
  }
}
