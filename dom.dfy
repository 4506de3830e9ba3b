/** The page as the selector generator sees it: a finite tree of element records
    and a selector-matching oracle standing for `document.querySelectorAll`. */
module Dom {
  import opened Common

  type ElemId = nat

  /** One element: `tag` is `tagName` as the DOM reports it, `attributes` is
      `element.attributes` in order, `parent` is `parentElement`, `children`
      is `parent.children` in document order, `text` is `textContent`. */
  datatype Element = Element(
    tag: string,
    id: string,
    classes: seq<string>,
    attributes: seq<(string, string)>,
    parent: Option<ElemId>,
    children: seq<ElemId>,
    text: string)

  /** What `querySelectorAll(sel)` does: None when it throws on a malformed
      selector, otherwise the set of matching elements. CSS grammar and
      matching are not modelled. */
  type Matcher = string -> Option<set<ElemId>>

  datatype Document = Document(elems: map<ElemId, Element>, body: Option<ElemId>, matches: Matcher)

  /** `element.parentElement`, when it is an element of the document. */
  function ParentOf(d: Document, e: ElemId): (r: Option<ElemId>)
    ensures r.Some? ==> e in d.elems && r.value in d.elems
  {
    if e in d.elems && d.elems[e].parent.Some? && d.elems[e].parent.value in d.elems
    then d.elems[e].parent else None
  }

  /** `element.getAttribute(name)`: the first attribute with that name. */
  function GetAttribute(attrs: seq<(string, string)>, name: string): Option<string> {
    if attrs == [] then None
    else if attrs[0].0 == name then Some(attrs[0].1)
    else GetAttribute(attrs[1..], name)
  }

  /** `children.filter(sibling => sibling.tagName === tag)` */
  function SameTag(d: Document, cs: seq<ElemId>, tag: string): (r: seq<ElemId>)
    ensures forall x :: x in r <==> x in cs && x in d.elems && d.elems[x].tag == tag
  {
    if cs == [] then []
    else
      var head := if cs[0] in d.elems && d.elems[cs[0]].tag == tag then [cs[0]] else [];
      head + SameTag(d, cs[1..], tag)
  }

  /** `s.indexOf(x)`: -1 when absent. */
  function IndexOf(s: seq<ElemId>, x: ElemId): (r: int)
    ensures -1 <= r < |s|
    ensures r >= 0 ==> s[r] == x && forall j :: 0 <= j < r ==> s[j] != x
    ensures r == -1 <==> x !in s
  {
    if s == [] then -1
    else if s[0] == x then 0
    else var i := IndexOf(s[1..], x); if i == -1 then -1 else i + 1
  }

  /** The 1-based position of `e` among the children of `p` with its tag name
      (`siblings.indexOf(element) + 1`); 0 when `e` is not among them. */
  function TypeIndex(d: Document, p: ElemId, e: ElemId): nat
    requires p in d.elems && e in d.elems
  {
    IndexOf(SameTag(d, d.elems[p].children, d.elems[e].tag), e) + 1
  }

  /** The element `:nth-of-type(i)` designates under `p` for tag `tag`. */
  function NthOfType(d: Document, p: ElemId, tag: string, i: nat): Option<ElemId>
    requires p in d.elems
  {
    var sibs := SameTag(d, d.elems[p].children, tag);
    if 1 <= i <= |sibs| then Some(sibs[i - 1]) else None
  }

  /** The index computation is the inverse of `:nth-of-type`: a child of `p`
      gets a positive index, and that index designates the child itself. */
  lemma TypeIndexDesignates(d: Document, p: ElemId, e: ElemId)
    requires p in d.elems && e in d.elems
    requires e in d.elems[p].children
    ensures TypeIndex(d, p, e) >= 1
    ensures NthOfType(d, p, d.elems[e].tag, TypeIndex(d, p, e)) == Some(e)
  {
    var sibs := SameTag(d, d.elems[p].children, d.elems[e].tag);
    assert e in sibs;
  }

  /** Two elements with the same tag under the same parent never get the same index. */
  lemma TypeIndexInjective(d: Document, p: ElemId, e1: ElemId, e2: ElemId)
    requires p in d.elems && e1 in d.elems && e2 in d.elems
    requires e1 in d.elems[p].children && e2 in d.elems[p].children
    requires d.elems[e1].tag == d.elems[e2].tag && e1 != e2
    ensures TypeIndex(d, p, e1) != TypeIndex(d, p, e2)
  {
    TypeIndexDesignates(d, p, e1);
    TypeIndexDesignates(d, p, e2);
  }
}
