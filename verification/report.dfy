/**
  The abstract shape of a Vera++ XML report, after tokenising.

  The sensor never sees XML text: its cursors hand it elements one at a time.
  This module therefore describes a report as a tree of already-parsed
  elements (a kind, the attributes read, the child elements), together with where in
  the traversal the reader would hit end of input or an unexpected character.
 */
module VeraReport {

  /** An attribute lookup may find nothing; the cursor then returns null. */
  datatype Option<+T> = None | Some(value: T)

  /**
    What a tag-filtered child cursor sees of an element's name: a "file"
    element, an "error" element, or an element with any other tag.
   */
  datatype Kind = FileKind | ErrorKind | OtherKind

  /**
    The attributes the sensor reads, each absent (None) or present with its
    text: "name" on a file element; "line", "message" and "source" on an error
    element. Other attributes are never read and are not represented.
   */
  datatype Attributes = Attributes(name: Option<string>, line: Option<string>,
                                   message: Option<string>, source: Option<string>)

  /** One XML element: its kind, its attributes and its child elements in document order. */
  datatype Element = Element(kind: Kind, attrs: Attributes, children: seq<Element>)

  /**
    What the reader is given.
    - EndOfInput: the very first advance of the root cursor reaches end of input.
    - Root(children, fault): a root element whose children are `children`.
      When `fault` is Some(k), the reader delivers the first k elements the
      traversal visits ("file" elements and their "error" children, in
      document order) and then raises an unexpected-character fault; when
      `fault` is None, the document is read to its end. A k at or beyond the
      number of visits is a fault after the last visited element: the log is
      complete but the outcome is still Corrupt.
   */
  datatype Report = EndOfInput | Root(children: seq<Element>, fault: Option<nat>)

  /** The elements of `es` of kind `tag`, in order: what a child-element cursor filtered on that tag yields. */
  function Children(es: seq<Element>, tag: Kind): (r: seq<Element>)
    ensures |r| <= |es|
  {
    if es == [] then []
    else (if es[0].kind == tag then [es[0]] else []) + Children(es[1..], tag)
  }

  /** The filter keeps exactly the elements of `es` that carry `tag`. */
  lemma {:induction false} ChildrenMembership(es: seq<Element>, tag: Kind, x: Element)
    ensures x in Children(es, tag) <==> x in es && x.kind == tag
  {
    if es != [] {
      assert es == [es[0]] + es[1..];
      ChildrenMembership(es[1..], tag, x);
    }
  }

  /** Filtering distributes over concatenation: order is kept and nothing is merged. */
  lemma {:induction false} ChildrenAppend(a: seq<Element>, b: seq<Element>, tag: Kind)
    ensures Children(a + b, tag) == Children(a, tag) + Children(b, tag)
  {
    if a == [] {
      assert a + b == b;
    } else {
      assert (a + b)[0] == a[0];
      assert (a + b)[1..] == a[1..] + b;
      ChildrenAppend(a[1..], b, tag);
      var ra, rb := Children(a[1..], tag), Children(b, tag);
      if a[0].kind == tag {
        assert Children(a + b, tag) == [a[0]] + (ra + rb);
        assert [a[0]] + (ra + rb) == ([a[0]] + ra) + rb;
      } else {
        assert Children(a + b, tag) == [] + (ra + rb);
        assert Children(a, tag) == [] + ra;
      }
    }
  }

  /** `f` with its "name" attribute set to `n` (removed when `n` is None); nothing else changes. */
  function Rename(f: Element, n: Option<string>): (r: Element)
    ensures r.attrs.name == n
    ensures r.kind == f.kind && r.children == f.children
    ensures r.attrs.line == f.attrs.line && r.attrs.message == f.attrs.message && r.attrs.source == f.attrs.source
  {
    f.(attrs := f.attrs.(name := n))
  }
}
