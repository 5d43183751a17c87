/**
  The cursor walk of CxxVeraxxSensor, as the sequence of elements it visits.

  A "file" cursor steps over the root's children, stopping only at "file"
  elements; for each, an "error" cursor steps over that file's children,
  stopping only at "error" elements. A call to saveUniqueViolation happens at
  each visited "error" element whose file is not named "error". This trace
  view is what an unexpected-character fault cuts short; the lemmas at the end
  show that, read to its end, it makes exactly the calls of CompletedLog.
 */
module Traversal {
  import opened VeraReport
  import opened Violations

  /** One step of a cursor: arriving at a file element, or at an error element of the file called `name`. */
  datatype Visit = FileVisit(name: Option<string>) | ErrorVisit(name: Option<string>, error: Element)

  /** The visits of the error cursor over the children `cs` of a file called `name`: one per "error" child. */
  function ErrorVisits(name: Option<string>, cs: seq<Element>): (r: seq<Visit>)
    ensures |r| == |Children(cs, ErrorKind)|
  {
    if cs == [] then []
    else (if cs[0].kind == ErrorKind then [ErrorVisit(name, cs[0])] else []) + ErrorVisits(name, cs[1..])
  }

  /** The error cursor visits the "error" children of the file, in order, each tagged with the file's name. */
  lemma {:induction false} ErrorVisitsAre(name: Option<string>, cs: seq<Element>)
    ensures forall k :: 0 <= k < |ErrorVisits(name, cs)| ==>
      ErrorVisits(name, cs)[k] == ErrorVisit(name, Children(cs, ErrorKind)[k])
  {
    if cs != [] {
      ErrorVisitsAre(name, cs[1..]);
      var tl, es := ErrorVisits(name, cs[1..]), Children(cs[1..], ErrorKind);
      if cs[0].kind == ErrorKind {
        forall k | 0 <= k < |ErrorVisits(name, cs)|
          ensures ErrorVisits(name, cs)[k] == ErrorVisit(name, Children(cs, ErrorKind)[k])
        {
          assert ErrorVisits(name, cs) == [ErrorVisit(name, cs[0])] + tl;
          assert Children(cs, ErrorKind) == [cs[0]] + es;
          if k > 0 {
            assert ErrorVisits(name, cs)[k] == tl[k - 1];
            assert Children(cs, ErrorKind)[k] == es[k - 1];
          }
        }
      } else {
        assert ErrorVisits(name, cs) == [] + tl;
        assert Children(cs, ErrorKind) == [] + es;
      }
    }
  }

  /** The visits made at one child of the root: none unless it is a "file" element; the arrival at the file comes first. */
  function RootChildVisits(e: Element): (r: seq<Visit>)
    ensures e.kind != FileKind ==> r == []
    ensures e.kind == FileKind ==> |r| == 1 + |Children(e.children, ErrorKind)| && r[0] == FileVisit(e.attrs.name)
  {
    if e.kind == FileKind then
      var name := e.attrs.name;
      [FileVisit(name)] + ErrorVisits(name, e.children)
    else []
  }

  /**
    After the arrival at a file, the visits are its "error" children in
    order, all carrying the name read once on arrival.
   */
  lemma FileVisitsNamed(e: Element)
    requires e.kind == FileKind
    ensures var r, errs := RootChildVisits(e), Children(e.children, ErrorKind);
      forall k :: 0 <= k < |errs| ==> r[1..][k] == ErrorVisit(e.attrs.name, errs[k])
  {
    var name := e.attrs.name;
    ErrorVisitsAre(name, e.children);
    assert RootChildVisits(e)[1..] == ErrorVisits(name, e.children);
  }

  /** The visits of the whole traversal of the root's children, in document order: VisitCount of them. */
  function Visits(children: seq<Element>): (r: seq<Visit>)
    ensures |r| == VisitCount(children)
  {
    if children == [] then [] else RootChildVisits(children[0]) + Visits(children[1..])
  }

  /** The call made at one visit: one at an "error" element of a file not named "error", none otherwise. */
  function VisitCalls(key: string, v: Visit): (r: seq<Call>)
    ensures |r| <= 1
  {
    match v
    case ErrorVisit(name, x) => if Suppressed(name) then [] else [CallFor(key, name, x)]
    case FileVisit(_) => []
  }

  /** A visit makes a call exactly when it reaches an "error" element of a file not named "error", and that call is the element's. */
  lemma VisitCallsExactly(key: string, v: Visit)
    ensures VisitCalls(key, v) != [] <==> v.ErrorVisit? && !Suppressed(v.name)
    ensures v.ErrorVisit? && !Suppressed(v.name) ==> VisitCalls(key, v) == [CallFor(key, v.name, v.error)]
  {
  }

  /** The saveUniqueViolation calls made along a run of visits: at most one per visit. */
  function CallsOf(key: string, vs: seq<Visit>): (r: seq<Call>)
    ensures |r| <= |vs|
  {
    if vs == [] then [] else VisitCalls(key, vs[0]) + CallsOf(key, vs[1..])
  }

  /** How many visits a traversal of `children` makes: one per "file" element and one per "error" child of it. */
  function VisitCount(children: seq<Element>): nat
  {
    if children == [] then 0
    else
      var e := children[0];
      (if e.kind == FileKind then 1 + |Children(e.children, ErrorKind)| else 0) + VisitCount(children[1..])
  }

  lemma {:induction false} ErrorVisitsAppend(name: Option<string>, a: seq<Element>, b: seq<Element>)
    ensures ErrorVisits(name, a + b) == ErrorVisits(name, a) + ErrorVisits(name, b)
  {
    if a == [] {
      assert a + b == b;
    } else {
      assert (a + b)[0] == a[0];
      assert (a + b)[1..] == a[1..] + b;
      var h := if a[0].kind == ErrorKind then [ErrorVisit(name, a[0])] else [];
      assert ErrorVisits(name, a + b) == h + ErrorVisits(name, a[1..] + b);
      ErrorVisitsAppend(name, a[1..], b);
      assert h + (ErrorVisits(name, a[1..]) + ErrorVisits(name, b)) == (h + ErrorVisits(name, a[1..])) + ErrorVisits(name, b);
    }
  }

  lemma {:induction false} VisitsAppend(a: seq<Element>, b: seq<Element>)
    ensures Visits(a + b) == Visits(a) + Visits(b)
  {
    if a == [] {
      assert a + b == b;
    } else {
      assert (a + b)[0] == a[0];
      assert (a + b)[1..] == a[1..] + b;
      var h := RootChildVisits(a[0]);
      assert Visits(a + b) == h + Visits(a[1..] + b);
      VisitsAppend(a[1..], b);
      assert h + (Visits(a[1..]) + Visits(b)) == (h + Visits(a[1..])) + Visits(b);
    }
  }

  /** Calls are made visit by visit: the calls of two runs of visits are the first run's, then the second's. */
  lemma {:induction false} CallsOfAppend(key: string, a: seq<Visit>, b: seq<Visit>)
    ensures CallsOf(key, a + b) == CallsOf(key, a) + CallsOf(key, b)
  {
    if a == [] {
      assert a + b == b;
    } else {
      assert (a + b)[0] == a[0];
      assert (a + b)[1..] == a[1..] + b;
      var h := VisitCalls(key, a[0]);
      assert CallsOf(key, a + b) == h + CallsOf(key, a[1..] + b);
      CallsOfAppend(key, a[1..], b);
      assert h + (CallsOf(key, a[1..]) + CallsOf(key, b)) == (h + CallsOf(key, a[1..])) + CallsOf(key, b);
    }
  }

  lemma ErrorCallsCons(key: string, name: Option<string>, x: Element, rest: seq<Element>)
    ensures ErrorCalls(key, name, [x] + rest) == [CallFor(key, name, x)] + ErrorCalls(key, name, rest)
  {
    var l, r := ErrorCalls(key, name, [x] + rest), [CallFor(key, name, x)] + ErrorCalls(key, name, rest);
    assert |l| == |r|;
    forall k | 0 <= k < |l|
      ensures l[k] == r[k]
    {
      if k > 0 {
        assert ([x] + rest)[k] == rest[k - 1];
      }
    }
  }

  /** The calls made at the first element a file's error cursor looks at. */
  lemma {:induction false} ErrorVisitsCallsHead(key: string, name: Option<string>, cs: seq<Element>)
    requires cs != []
    ensures CallsOf(key, ErrorVisits(name, cs)) ==
      (if cs[0].kind == ErrorKind && !Suppressed(name) then [CallFor(key, name, cs[0])] else [])
      + CallsOf(key, ErrorVisits(name, cs[1..]))
  {
    var hd := if cs[0].kind == ErrorKind then [ErrorVisit(name, cs[0])] else [];
    CallsOfAppend(key, hd, ErrorVisits(name, cs[1..]));
    if cs[0].kind == ErrorKind {
      assert hd[1..] == [];
    }
  }

  /**
    Walking the children of a file called `name` with the error cursor makes
    one call per "error" child, in order, unless the file is named "error".
   */
  lemma {:induction false} ErrorVisitsCalls(key: string, name: Option<string>, cs: seq<Element>)
    ensures CallsOf(key, ErrorVisits(name, cs)) ==
      if Suppressed(name) then [] else ErrorCalls(key, name, Children(cs, ErrorKind))
  {
    if cs != [] {
      var x := cs[0];
      var rest := Children(cs[1..], ErrorKind);
      ErrorVisitsCallsHead(key, name, cs);
      ErrorVisitsCalls(key, name, cs[1..]);
      if x.kind == ErrorKind {
        assert Children(cs, ErrorKind) == [x] + rest;
        ErrorCallsCons(key, name, x, rest);
      } else {
        assert Children(cs, ErrorKind) == rest;
      }
    }
  }

  /** A run of error visits of one file, for the error elements `es`, makes those elements' calls unless the file is named "error". */
  lemma {:induction false} ErrorVisitRunCalls(key: string, name: Option<string>, vs: seq<Visit>, es: seq<Element>)
    requires |vs| == |es|
    requires forall k :: 0 <= k < |vs| ==> vs[k] == ErrorVisit(name, es[k])
    ensures CallsOf(key, vs) == if Suppressed(name) then [] else ErrorCalls(key, name, es)
  {
    if vs != [] {
      ErrorVisitRunCalls(key, name, vs[1..], es[1..]);
      assert es == [es[0]] + es[1..];
      ErrorCallsCons(key, name, es[0], es[1..]);
    }
  }

  /** The visits at one root child make exactly the calls that child contributes to the complete log. */
  lemma RootChildVisitsCalls(key: string, e: Element)
    ensures CallsOf(key, RootChildVisits(e)) == RootChildCalls(key, e)
  {
    if e.kind == FileKind {
      var name := e.attrs.name;
      CallsOfAppend(key, [FileVisit(name)], ErrorVisits(name, e.children));
      assert CallsOf(key, [FileVisit(name)]) == [] + CallsOf(key, []);
      ErrorVisitsCalls(key, name, e.children);
    }
  }

  /**
    The trace view and the declarative view agree: a traversal that runs to
    the end makes exactly the calls of CompletedLog, in the same order.
   */
  lemma {:induction false} TraceAgreesWithLog(key: string, children: seq<Element>)
    ensures CallsOf(key, Visits(children)) == CompletedLog(key, children)
  {
    if children != [] {
      var e := children[0];
      assert children == [e] + children[1..];
      CallsOfAppend(key, RootChildVisits(e), Visits(children[1..]));
      RootChildVisitsCalls(key, e);
      TraceAgreesWithLog(key, children[1..]);
      CompletedLogAppend(key, [e], children[1..]);
      CompletedLogSingle(key, e);
    }
  }
}
