/** The parsed form of a descriptor document, and the three ElementTree
    queries the linter and the verifier use on it: `find(tag)` (first direct
    child with that tag), `findall(tag)` (all direct children with that tag)
    and `findall('.//' + tag)` (all elements below, in document order). */
module Xml {

  import opened Wrappers

  /** An XML element: its tag, its child elements in document order and its
      text, which is absent (`None` in Python) when the element has no
      character data before its first child. */
  datatype Element = Element(tag: string, children: seq<Element>, text: Option<string>)

  /** What parsing a descriptor file gives: the reason it is not well-formed
      XML (the text of the parser's exception) or its root element. */
  datatype Document = Malformed(reason: string) | Parsed(root: Element)

  /** Python's `f"{x}"` for a value that may be `None`. */
  function Display(t: Option<string>): string
  {
    match t
    case Some(s) => s
    case None => "None"
  }

  /** The index of the first element of `cs` tagged `tag`, or `|cs|` when
      there is none. */
  function FirstIndex(cs: seq<Element>, tag: string): (r: nat)
    ensures r <= |cs|
    ensures forall j :: 0 <= j < r ==> cs[j].tag != tag
    ensures r < |cs| ==> cs[r].tag == tag
  {
    if |cs| == 0 then 0
    else if cs[0].tag == tag then 0
    else 1 + FirstIndex(cs[1..], tag)
  }

  /** `element.find(tag)`: the first direct child tagged `tag`. */
  function Find(e: Element, tag: string): (r: Option<Element>)
    ensures r.Some? ==> r.value in e.children && r.value.tag == tag
  {
    var i := FirstIndex(e.children, tag);
    if i < |e.children| then Some(e.children[i]) else None
  }

  /** `find` gives `None` exactly when no direct child has the tag, and
      otherwise the first matching child, not just any. */
  lemma FindIsFirst(e: Element, tag: string)
    ensures Find(e, tag).None? <==> forall c :: c in e.children ==> c.tag != tag
    ensures Find(e, tag).Some? ==>
              exists i :: 0 <= i < |e.children| && e.children[i] == Find(e, tag).value
                          && forall j :: 0 <= j < i ==> e.children[j].tag != tag
  {
  }

  /** The elements of `cs` tagged `tag`, in their order in `cs`. */
  function Filter(cs: seq<Element>, tag: string): (r: seq<Element>)
    ensures |r| <= |cs|
  {
    if |cs| == 0 then []
    else if cs[0].tag == tag then [cs[0]] + Filter(cs[1..], tag)
    else Filter(cs[1..], tag)
  }

  /** `element.findall(tag)`: the direct children tagged `tag`. */
  function FindAll(e: Element, tag: string): seq<Element>
  {
    Filter(e.children, tag)
  }

  lemma {:induction false} FilterMembers(cs: seq<Element>, tag: string, x: Element)
    ensures x in Filter(cs, tag) <==> x in cs && x.tag == tag
  {
    if |cs| > 0 {
      FilterMembers(cs[1..], tag, x);
      assert cs == [cs[0]] + cs[1..];
    }
  }

  /** `findall` gives exactly the direct children with the tag. */
  lemma FindAllMembers(e: Element, tag: string, x: Element)
    ensures x in FindAll(e, tag) <==> x in e.children && x.tag == tag
  {
    FilterMembers(e.children, tag, x);
  }

  /** Every element strictly below `e`, in document (pre-)order. */
  function Descendants(e: Element): seq<Element>
    decreases e, |e.children| + 1
  {
    DescendantsFrom(e, 0)
  }

  /** The children of `e` from index `i` on, each followed by its own
      descendants. */
  function DescendantsFrom(e: Element, i: nat): seq<Element>
    requires i <= |e.children|
    decreases e, |e.children| - i
  {
    if i == |e.children| then []
    else [e.children[i]] + Descendants(e.children[i]) + DescendantsFrom(e, i + 1)
  }

  /** `element.findall('.//' + tag)`: the elements tagged `tag` at any depth
      below `e` (never `e` itself), in document order. */
  function FindAllDeep(e: Element, tag: string): seq<Element>
  {
    Filter(Descendants(e), tag)
  }

  /** `x` lies strictly below `e`: it is a child of `e` or below one. */
  ghost predicate Below(e: Element, x: Element)
    decreases e
  {
    exists i :: 0 <= i < |e.children| && (e.children[i] == x || Below(e.children[i], x))
  }

  lemma {:induction false} DescendantsFromMembers(e: Element, i: nat, x: Element)
    requires i <= |e.children|
    ensures x in DescendantsFrom(e, i) <==>
            exists k :: i <= k < |e.children| && (e.children[k] == x || Below(e.children[k], x))
    decreases e, |e.children| - i
  {
    if i < |e.children| {
      DescendantsFromMembers(e, i + 1, x);
      DescendantsMembers(e.children[i], x);
      if x in DescendantsFrom(e, i) {
        if x != e.children[i] && x !in Descendants(e.children[i]) {
          var k :| i + 1 <= k < |e.children| && (e.children[k] == x || Below(e.children[k], x));
        }
      } else {
        forall k | i <= k < |e.children|
          ensures !(e.children[k] == x || Below(e.children[k], x))
        {
        }
      }
    }
  }

  /** The pre-order enumeration lists exactly the elements below `e`. */
  lemma {:induction false} DescendantsMembers(e: Element, x: Element)
    ensures x in Descendants(e) <==> Below(e, x)
    decreases e, |e.children| + 1
  {
    DescendantsFromMembers(e, 0, x);
  }

  /** `.//tag` finds exactly the elements tagged `tag` at any depth below `e`. */
  lemma FindAllDeepMembers(e: Element, tag: string, x: Element)
    ensures x in FindAllDeep(e, tag) <==> Below(e, x) && x.tag == tag
  {
    DescendantsMembers(e, x);
    FilterMembers(Descendants(e), tag, x);
  }

  /** When no child of `e` has anything tagged `tag` below it, `.//tag` and
      the direct `findall(tag)` give the same list. */
  lemma {:induction false} FlatDeepIsDirect(e: Element, tag: string)
    requires forall c :: c in e.children ==> FindAllDeep(c, tag) == []
    ensures FindAllDeep(e, tag) == FindAll(e, tag)
  {
    FlatFrom(e, tag, 0);
  }

  lemma {:induction false} FilterAppend(a: seq<Element>, b: seq<Element>, tag: string)
    ensures Filter(a + b, tag) == Filter(a, tag) + Filter(b, tag)
  {
    if |a| > 0 {
      assert (a + b)[1..] == a[1..] + b;
      FilterAppend(a[1..], b, tag);
    } else {
      assert a + b == b;
    }
  }

  lemma {:induction false} FlatFrom(e: Element, tag: string, i: nat)
    requires i <= |e.children|
    requires forall c :: c in e.children ==> FindAllDeep(c, tag) == []
    ensures Filter(DescendantsFrom(e, i), tag) == Filter(e.children[i..], tag)
    decreases |e.children| - i
  {
    if i < |e.children| {
      var c := e.children[i];
      var rest := DescendantsFrom(e, i + 1);
      FlatFrom(e, tag, i + 1);
      assert Filter(Descendants(c), tag) == [] by {
        assert c in e.children;
      }
      FilterAppend([c] + Descendants(c), rest, tag);
      FilterAppend([c], Descendants(c), tag);
      assert e.children[i..] == [c] + e.children[i + 1..];
      FilterAppend([c], e.children[i + 1..], tag);
    }
  }
}
