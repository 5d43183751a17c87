/**
  CxxVeraxxSensor.processReport: one Vera++ report in, a log of
  saveUniqueViolation calls and an outcome out.

  The sink is an append-only log: calls are made as the traversal reaches each
  "error" element, so when an unexpected character stops the reader, the calls
  already made stay in the log. That fault is caught inside processReport and
  reported here as the Corrupt outcome; an empty input becomes Empty (the
  EmptyReportException the stream handler throws).
 */
module VeraxxSensor {
  import opened VeraReport
  import opened Violations
  import opened Traversal

  /** How processing a report ends. */
  datatype Outcome =
    | Empty      // the first advance of the root cursor reached end of input
    | Corrupt    // an unexpected-character fault stopped the traversal and was swallowed
    | Completed  // the traversal reached the end of the document

  /** The calls made, in order, and how processing ended. */
  datatype Run = Run(calls: seq<Call>, outcome: Outcome)

  function Min(a: nat, b: nat): nat
  {
    if a < b then a else b
  }

  /**
    The calls made when an unexpected-character fault strikes after k visits:
    those of the visits before it, which begin the complete report's log.
   */
  function CallsBeforeFault(key: string, children: seq<Element>, k: nat): (r: seq<Call>)
    ensures r <= CompletedLog(key, children)
    ensures k >= VisitCount(children) ==> r == CompletedLog(key, children)
  {
    var vs := Visits(children);
    var m := Min(k, |vs|);
    TraceAgreesWithLog(key, children);
    assert vs == vs[..m] + vs[m..];
    CallsOfAppend(key, vs[..m], vs[m..]);
    assert k >= |vs| ==> vs[..m] == vs;
    CallsOf(key, vs[..m])
  }

  /**
    Processing one report: no calls on an empty input; every visited "error"
    element of a file not named "error" logged on a complete one; the calls of
    the visits before the fault on a corrupt one.
   */
  function ProcessReport(key: string, report: Report): (r: Run)
    ensures r.outcome == Empty <==> report.EndOfInput?
    ensures r.outcome == Empty ==> r.calls == []
    ensures r.outcome == Completed <==> report.Root? && report.fault.None?
    ensures r.outcome == Completed ==> r.calls == CompletedLog(key, report.children)
    ensures r.outcome == Completed ==> |r.calls| == ViolationCount(report.children)
    ensures r.outcome == Corrupt ==> r.calls <= CompletedLog(key, report.children)
    ensures forall c :: c in r.calls ==> c.repoKey == key
  {
    match report
    case EndOfInput => Run([], Empty)
    case Root(children, None) =>
      TraceAgreesWithLog(key, children);
      CompletedLogKey(key, children);
      CompletedLogCount(key, children);
      Run(CallsOf(key, Visits(children)), Completed)
    case Root(children, Some(k)) =>
      CompletedLogKey(key, children);
      Run(CallsBeforeFault(key, children, k), Corrupt)
  }

  /** The traversal from root child i on: the visits at child i, then those after it. */
  lemma VisitsFrom(children: seq<Element>, i: nat)
    requires i < |children|
    ensures Visits(children[i..]) == RootChildVisits(children[i]) + Visits(children[i + 1..])
  {
    assert children[i..][1..] == children[i + 1..];
  }

  /** The error cursor from file child j on: the visit at child j, if it is an "error" element, then the rest. */
  lemma ErrorVisitsFrom(name: Option<string>, cs: seq<Element>, j: nat)
    requires j < |cs|
    ensures ErrorVisits(name, cs[j..]) ==
      (if cs[j].kind == ErrorKind then [ErrorVisit(name, cs[j])] else []) + ErrorVisits(name, cs[j + 1..])
  {
    assert cs[j..][1..] == cs[j + 1..];
  }

  /** One more visit adds the call it makes, if any, to the end of the log. */
  lemma CallsOfStep(key: string, done: seq<Visit>, v: Visit)
    ensures v.FileVisit? ==> CallsOf(key, done + [v]) == CallsOf(key, done)
    ensures v.ErrorVisit? && Suppressed(v.name) ==> CallsOf(key, done + [v]) == CallsOf(key, done)
    ensures v.ErrorVisit? && !Suppressed(v.name) ==>
      CallsOf(key, done + [v]) == CallsOf(key, done) + [CallFor(key, v.name, v.error)]
  {
    CallsOfAppend(key, done, [v]);
    assert [v][1..] == [];
  }

  /**
    A fault that strikes m visits into the part `mid` of a traversal whose
    visits are `pre + mid + post` leaves the calls of `pre` and of those m visits.
   */
  lemma FaultWithin(key: string, children: seq<Element>, pre: seq<Visit>, mid: seq<Visit>, post: seq<Visit>, m: nat)
    requires Visits(children) == pre + (mid + post) && m <= |mid|
    ensures CallsBeforeFault(key, children, |pre| + m) == CallsOf(key, pre) + CallsOf(key, mid[..m])
  {
    var vs := Visits(children);
    assert Min(|pre| + m, |vs|) == |pre| + m;
    assert vs[..|pre| + m] == pre + mid[..m];
    CallsOfAppend(key, pre, mid[..m]);
  }

  /**
    The error cursor at file child j: the visits before it and from it make up
    the file's visits, moving past it adds one visit if it is an "error"
    element, and such a visit is still to come.
   */
  lemma ErrorCursorStep(name: Option<string>, cs: seq<Element>, j: nat)
    requires j < |cs|
    ensures ErrorVisits(name, cs) == ErrorVisits(name, cs[..j]) + ErrorVisits(name, cs[j..])
    ensures ErrorVisits(name, cs[..j + 1]) ==
      ErrorVisits(name, cs[..j]) + (if cs[j].kind == ErrorKind then [ErrorVisit(name, cs[j])] else [])
    ensures cs[j].kind == ErrorKind ==> |ErrorVisits(name, cs[..j])| < |ErrorVisits(name, cs)|
  {
    assert cs == cs[..j] + cs[j..];
    ErrorVisitsAppend(name, cs[..j], cs[j..]);
    assert cs[..j + 1] == cs[..j] + [cs[j]];
    ErrorVisitsAppend(name, cs[..j], [cs[j]]);
    assert [cs[j]][1..] == [];
    ErrorVisitsFrom(name, cs, j);
  }

  /**
    One step of the error cursor of a file called `name`, at its child cs[j],
    after the visits `done` of the file and `steps0` visits in all: an "error"
    element is visited and logged (unless the fault strikes on arrival); any
    other element is stepped over. The file's visits began after `base`
    visits, when the log was `log`.
   */
  method ErrorStep(key: string, name: Option<string>, cs: seq<Element>, j: nat, fault: Option<nat>,
                   base: nat, log: seq<Call>, steps0: nat, calls0: seq<Call>, ghost done: seq<Visit>)
    returns (calls: seq<Call>, steps: nat, faulted: bool)
    requires j < |cs| && done == ErrorVisits(name, cs[..j])
    requires steps0 == base + |done| && calls0 == log + CallsOf(key, done)
    requires fault.Some? ==> steps0 <= fault.value
    ensures var vs := ErrorVisits(name, cs);
      faulted ==> (fault.Some? && base <= fault.value < base + |vs|
                   && calls == log + CallsOf(key, vs[..fault.value - base]))
    ensures var next := ErrorVisits(name, cs[..j + 1]);
      !faulted ==> (steps == base + |next| && calls == log + CallsOf(key, next)
                    && (fault.Some? ==> steps <= fault.value))
  {
    var x := cs[j];
    ErrorCursorStep(name, cs, j);
    if x.kind != ErrorKind {
      assert done + [] == done;
      return calls0, steps0, false;
    }
    if fault == Some(steps0) {
      assert ErrorVisits(name, cs)[..|done|] == done;
      return calls0, steps0, true;
    }
    CallsOfStep(key, done, ErrorVisit(name, x));
    steps := steps0 + 1;
    calls := if Suppressed(name) then calls0 else calls0 + [CallFor(key, name, x)];
    faulted := false;
  }

  /**
    The inner cursor of the source: the "error" children of one file called
    `name`, starting after `steps0` visits and with `calls0` already made. It
    either walks them all, making their calls, or stops where `fault` strikes,
    keeping the calls made so far.
   */
  method StreamErrors(key: string, name: Option<string>, cs: seq<Element>, fault: Option<nat>,
                      steps0: nat, calls0: seq<Call>)
    returns (calls: seq<Call>, steps: nat, faulted: bool)
    requires fault.Some? ==> steps0 <= fault.value
    ensures var vs := ErrorVisits(name, cs);
      faulted ==> (fault.Some? && steps0 <= fault.value < steps0 + |vs|
                   && calls == calls0 + CallsOf(key, vs[..fault.value - steps0]))
    ensures var vs := ErrorVisits(name, cs);
      !faulted ==> (steps == steps0 + |vs| && calls == calls0 + CallsOf(key, vs)
                    && (fault.Some? ==> steps <= fault.value))
  {
    calls, steps, faulted := calls0, steps0, false;
    ghost var done: seq<Visit> := [];
    var j := 0;
    assert cs[..0] == [];
    while j < |cs|
      invariant 0 <= j <= |cs|
      invariant done == ErrorVisits(name, cs[..j])
      invariant steps == steps0 + |done|
      invariant calls == calls0 + CallsOf(key, done)
      invariant fault.Some? ==> steps <= fault.value
    {
      calls, steps, faulted := ErrorStep(key, name, cs, j, fault, steps0, calls0, steps, calls, done);
      if faulted {
        return;
      }
      done := ErrorVisits(name, cs[..j + 1]);
      j := j + 1;
    }
    assert cs[..j] == cs;
  }

  /** A fault that strikes once the visits `done` are made leaves exactly their calls. */
  lemma FaultAfter(key: string, children: seq<Element>, done: seq<Visit>, rest: seq<Visit>)
    requires Visits(children) == done + rest
    ensures CallsBeforeFault(key, children, |done|) == CallsOf(key, done)
  {
    assert (done + rest)[..|done|] == done;
  }

  /** The calls a file element contributes are those its error cursor makes. */
  lemma FileCallsByCursor(key: string, e: Element)
    requires e.kind == FileKind
    ensures RootChildCalls(key, e) == CallsOf(key, ErrorVisits(e.attrs.name, e.children))
  {
    RootChildVisitsCalls(key, e);
    var fv := [FileVisit(e.attrs.name)];
    CallsOfAppend(key, fv, ErrorVisits(e.attrs.name, e.children));
    assert CallsOf(key, fv) == [];
  }

  /**
    A fault after k visits, where the file element children[i] was visited as
    visit number `first` and k >= first, leaves the calls before the file and
    those of its first k - first error visits.
   */
  lemma FaultInFile(key: string, children: seq<Element>, i: nat, done: seq<Visit>, first: nat, k: nat)
    requires i < |children| && children[i].kind == FileKind
    requires Visits(children) == done + Visits(children[i..])
    requires first == |done| + 1
    requires first <= k < first + |ErrorVisits(children[i].attrs.name, children[i].children)|
    ensures var vs := ErrorVisits(children[i].attrs.name, children[i].children);
      CallsBeforeFault(key, children, k) == CallsOf(key, done) + CallsOf(key, vs[..k - first])
  {
    var e := children[i];
    var vs := ErrorVisits(e.attrs.name, e.children);
    var mid := [FileVisit(e.attrs.name)] + vs;
    var m := k - |done|;
    VisitsFrom(children, i);
    FaultWithin(key, children, done, mid, Visits(children[i + 1..]), m);
    assert |done| + m == k;
    FileVisitPrefixCalls(key, e.attrs.name, vs, m);
    assert m - 1 == k - first;
  }

  /** The arrival at a file makes no call: m visits into a file make the calls of its first m - 1 error visits. */
  lemma FileVisitPrefixCalls(key: string, name: Option<string>, vs: seq<Visit>, m: nat)
    requires 1 <= m <= |vs| + 1
    ensures CallsOf(key, ([FileVisit(name)] + vs)[..m]) == CallsOf(key, vs[..m - 1])
  {
    var fv := [FileVisit(name)];
    assert (fv + vs)[..m] == fv + vs[..m - 1];
    CallsOfAppend(key, fv, vs[..m - 1]);
    assert CallsOf(key, fv) == [];
  }

  /** Once the cursors are done with root child e, the log has grown by exactly e's contribution. */
  lemma FileFinished(key: string, done: seq<Visit>, e: Element)
    ensures CallsOf(key, done + RootChildVisits(e)) == CallsOf(key, done) + RootChildCalls(key, e)
  {
    CallsOfAppend(key, done, RootChildVisits(e));
    RootChildVisitsCalls(key, e);
  }

  /**
    One turn of the file cursor, at root child children[i], after the visits
    `done`: a file element is visited (unless the fault strikes on arrival)
    and its error cursor walked; any other element is stepped over.
   */
  method StreamChild(key: string, children: seq<Element>, i: nat, fault: Option<nat>,
                     calls0: seq<Call>, steps0: nat, ghost done: seq<Visit>)
    returns (calls: seq<Call>, steps: nat, faulted: bool)
    requires i < |children| && done == Visits(children[..i])
    requires steps0 == |done| && calls0 == CallsOf(key, done)
    requires fault.Some? ==> steps0 <= fault.value
    ensures faulted ==> fault.Some? && calls == CallsBeforeFault(key, children, fault.value)
    ensures !faulted ==>
      var next := Visits(children[..i + 1]);
      && steps == |next| && calls == CallsOf(key, next)
      && (fault.Some? ==> steps <= fault.value)
  {
    var e := children[i];
    VisitsPrefix(children, i);
    VisitsPrefixStep(children, i);
    FileFinished(key, done, e);
    if e.kind != FileKind {
      return calls0, steps0, false;
    }
    if fault == Some(steps0) {
      FaultAfter(key, children, done, Visits(children[i..]));
      return calls0, steps0, true;
    }
    var first := steps0 + 1;
    calls, steps, faulted := StreamErrors(key, e.attrs.name, e.children, fault, first, calls0);
    if faulted {
      FaultInFile(key, children, i, done, first, fault.value);
    } else {
      FileCallsByCursor(key, e);
    }
  }

  /** The visits before root child i, then those from it on, make the whole traversal. */
  lemma VisitsPrefix(children: seq<Element>, i: nat)
    requires i <= |children|
    ensures Visits(children) == Visits(children[..i]) + Visits(children[i..])
  {
    assert children == children[..i] + children[i..];
    VisitsAppend(children[..i], children[i..]);
  }

  /** The visits of the first i + 1 root children: those of the first i, then those at child i. */
  lemma VisitsPrefixStep(children: seq<Element>, i: nat)
    requires i < |children|
    ensures Visits(children[..i + 1]) == Visits(children[..i]) + RootChildVisits(children[i])
  {
    assert children[..i + 1] == children[..i] + [children[i]];
    VisitsAppend(children[..i], [children[i]]);
    assert [children[i]][1..] == [];
    assert Visits([children[i]]) == RootChildVisits(children[i]) + Visits([]);
  }

  /** When the file cursor is exhausted, the visits made are the whole traversal and their calls the complete log. */
  lemma TraversalFinished(key: string, children: seq<Element>, done: seq<Visit>)
    requires done == Visits(children[..|children|])
    ensures |done| == VisitCount(children)
    ensures CallsOf(key, done) == CompletedLog(key, children)
  {
    assert children[..|children|] == children;
    TraceAgreesWithLog(key, children);
  }

  /**
    The stream handler's traversal as the source writes it: a cursor over the
    root's "file" children and, inside it, a cursor over each file's "error"
    children, calling the sink at each "error" element unless the file is
    named "error". `faulted` reports that the unexpected-character fault
    escaped the traversal, with the calls made up to that point.
   */
  method StreamRoot(key: string, children: seq<Element>, fault: Option<nat>)
    returns (calls: seq<Call>, faulted: bool)
    ensures faulted ==> fault.Some? && calls == CallsBeforeFault(key, children, fault.value)
    ensures !faulted ==> calls == CompletedLog(key, children)
    ensures !faulted && fault.Some? ==> fault.value >= VisitCount(children)
  {
    calls := [];
    var steps := 0;
    ghost var done: seq<Visit> := [];
    var i := 0;
    assert children[..0] == [];
    while i < |children|
      invariant 0 <= i <= |children|
      invariant done == Visits(children[..i])
      invariant steps == |done|
      invariant calls == CallsOf(key, done)
      invariant fault.Some? ==> steps <= fault.value
    {
      calls, steps, faulted := StreamChild(key, children, i, fault, calls, steps, done);
      if faulted {
        return;
      }
      done := Visits(children[..i + 1]);
      i := i + 1;
    }
    TraversalFinished(key, children, done);
    return calls, false;
  }

  /**
    processReport: an empty input ends in Empty with no calls; otherwise the
    traversal runs, and a fault escaping it is caught, ending in Corrupt with
    the calls already made kept.
   */
  method StreamReport(key: string, report: Report) returns (calls: seq<Call>, outcome: Outcome)
    ensures Run(calls, outcome) == ProcessReport(key, report)
  {
    if report.EndOfInput? {
      return [], Empty;
    }
    var faulted;
    calls, faulted := StreamRoot(key, report.children, report.fault);
    if faulted {
      outcome := Corrupt;
    } else if report.fault.Some? {
      outcome := Corrupt;
    } else {
      outcome := Completed;
    }
  }

  /** A later fault never loses calls: the log of an earlier fault is a prefix of the log of a later one. */
  lemma FaultLaterLogsMore(key: string, children: seq<Element>, k1: nat, k2: nat)
    requires k1 <= k2
    ensures ProcessReport(key, Root(children, Some(k1))).calls <= ProcessReport(key, Root(children, Some(k2))).calls
  {
    var vs := Visits(children);
    var m1, m2 := Min(k1, |vs|), Min(k2, |vs|);
    assert vs[..m2] == vs[..m1] + vs[m1..m2];
    CallsOfAppend(key, vs[..m1], vs[m1..m2]);
  }

  /**
    A fault just before root child i (after all visits of the children before
    it) leaves exactly the calls those earlier children make on a complete read.
   */
  lemma FaultAtChildBoundary(key: string, children: seq<Element>, i: nat)
    requires i <= |children|
    ensures ProcessReport(key, Root(children, Some(VisitCount(children[..i])))).calls == CompletedLog(key, children[..i])
  {
    assert children == children[..i] + children[i..];
    VisitsAppend(children[..i], children[i..]);
    FaultAfter(key, children, Visits(children[..i]), Visits(children[i..]));
    TraceAgreesWithLog(key, children[..i]);
  }

  /**
    A fault inside file children[i], on arrival at its j-th "error" child,
    keeps the complete log of the children before i and the calls of the
    file's first j errors: calls are made as each error is visited, and
    none is buffered or withdrawn.
   */
  lemma FaultInsideFile(key: string, children: seq<Element>, i: nat, j: nat)
    requires i < |children| && children[i].kind == FileKind
    requires j < |Children(children[i].children, ErrorKind)|
    ensures var name, errs := children[i].attrs.name, Children(children[i].children, ErrorKind);
      ProcessReport(key, Root(children, Some(VisitCount(children[..i]) + 1 + j))).calls ==
      CompletedLog(key, children[..i]) + (if Suppressed(name) then [] else ErrorCalls(key, name, errs[..j]))
  {
    var e := children[i];
    var name, errs := e.attrs.name, Children(e.children, ErrorKind);
    var done := Visits(children[..i]);
    var vs := ErrorVisits(name, e.children);
    var k := VisitCount(children[..i]) + 1 + j;
    VisitsPrefix(children, i);
    FaultInFile(key, children, i, done, |done| + 1, k);
    TraceAgreesWithLog(key, children[..i]);
    ErrorVisitsAre(name, e.children);
    ErrorVisitRunCalls(key, name, vs[..j], errs[..j]);
  }

  /** Whatever the input, no call is ever made for the "error" pseudo-file. */
  lemma NoCallForErrorPseudoFile(key: string, report: Report)
    ensures forall c :: c in ProcessReport(key, report).calls ==> !Suppressed(c.file)
  {
    if report.Root? {
      var log := CompletedLog(key, report.children);
      forall c | c in ProcessReport(key, report).calls
        ensures !Suppressed(c.file)
      {
        assert c in log;
        CompletedLogMembership(key, report.children, c);
      }
    }
  }

  /** Processing depends on the root's children only through the visits the traversal makes. */
  lemma SameVisitsSameRun(key: string, a: seq<Element>, b: seq<Element>, fault: Option<nat>)
    requires Visits(a) == Visits(b)
    ensures ProcessReport(key, Root(a, fault)) == ProcessReport(key, Root(b, fault))
  {
    TraceAgreesWithLog(key, a);
    TraceAgreesWithLog(key, b);
  }

  /** An element of another kind among the root's children is never visited: inserting one changes nothing. */
  lemma ForeignRootChildIgnored(key: string, children: seq<Element>, i: nat, x: Element, fault: Option<nat>)
    requires i <= |children| && x.kind != FileKind
    ensures ProcessReport(key, Root(children[..i] + [x] + children[i..], fault)) == ProcessReport(key, Root(children, fault))
  {
    var grown := children[..i] + [x] + children[i..];
    var before, after := Visits(children[..i]), Visits(children[i..]);
    assert [x][1..] == [];
    assert Visits([x]) == [];
    VisitsAppend(children[..i], [x]);
    assert Visits(children[..i] + [x]) == before;
    VisitsAppend(children[..i] + [x], children[i..]);
    assert Visits(grown) == before + after;
    assert children[..i] + children[i..] == children;
    VisitsAppend(children[..i], children[i..]);
    assert Visits(grown) == Visits(children);
    SameVisitsSameRun(key, grown, children, fault);
  }

  /** A root child with the same visits as children[i] can take its place without changing the traversal. */
  lemma ReplaceRootChild(children: seq<Element>, i: nat, y: Element)
    requires i < |children| && RootChildVisits(y) == RootChildVisits(children[i])
    ensures Visits(children[i := y]) == Visits(children)
  {
    var updated := children[i := y];
    VisitsPrefix(children, i);
    VisitsPrefix(updated, i);
    VisitsFrom(children, i);
    VisitsFrom(updated, i);
    assert updated[..i] == children[..i] && updated[i + 1..] == children[i + 1..];
  }

  /** The error cursor steps over a child that is not an "error" element. */
  lemma InsertNonError(name: Option<string>, cs: seq<Element>, j: nat, x: Element)
    requires j <= |cs| && x.kind != ErrorKind
    ensures ErrorVisits(name, cs[..j] + [x] + cs[j..]) == ErrorVisits(name, cs)
  {
    ErrorVisitsAppend(name, cs[..j] + [x], cs[j..]);
    ErrorVisitsAppend(name, cs[..j], [x]);
    assert ErrorVisits(name, [x]) == [] + ErrorVisits(name, []);
    ErrorVisitsAppend(name, cs[..j], cs[j..]);
    assert cs[..j] + cs[j..] == cs;
  }

  /** An element of another kind among a file's children is never visited: inserting one changes nothing. */
  lemma ForeignFileChildIgnored(key: string, children: seq<Element>, i: nat, j: nat, x: Element, fault: Option<nat>)
    requires i < |children| && children[i].kind == FileKind
    requires j <= |children[i].children| && x.kind != ErrorKind
    ensures var f := children[i];
      var grown := f.(children := f.children[..j] + [x] + f.children[j..]);
      ProcessReport(key, Root(children[i := grown], fault)) == ProcessReport(key, Root(children, fault))
  {
    var f := children[i];
    var grown := f.(children := f.children[..j] + [x] + f.children[j..]);
    InsertNonError(f.attrs.name, f.children, j, x);
    assert RootChildVisits(grown) == RootChildVisits(f);
    ReplaceRootChild(children, i, grown);
    SameVisitsSameRun(key, children[i := grown], children, fault);
  }

  /**
    A report with a file "a.cpp" holding the same error twice, followed by the
    "error" pseudo-file holding one error: the sensor makes two identical calls
    (merging them is left to the sink) and none for the pseudo-file.
   */
  lemma DuplicateEntriesBothForwarded(key: string)
    ensures var none := Attributes(None, None, None, None);
      var err := Element(ErrorKind, Attributes(None, Some("1"), Some("m1"), Some("R1")), []);
      var fileA := Element(FileKind, none.(name := Some("a.cpp")), [err, err]);
      var pseudo := Element(FileKind, none.(name := Some("error")),
                            [Element(ErrorKind, Attributes(None, Some("9"), Some("oops"), None), [])]);
      var call := Call(key, Some("a.cpp"), Some("1"), Some("R1"), Some("m1"));
      ProcessReport(key, Root([fileA, pseudo], None)) == Run([call, call], Completed)
  {
    var none := Attributes(None, None, None, None);
    var err := Element(ErrorKind, Attributes(None, Some("1"), Some("m1"), Some("R1")), []);
    var fileA := Element(FileKind, none.(name := Some("a.cpp")), [err, err]);
    var pseudo := Element(FileKind, none.(name := Some("error")),
                          [Element(ErrorKind, Attributes(None, Some("9"), Some("oops"), None), [])]);
    assert Suppressed(pseudo.attrs.name);
    assert !Suppressed(fileA.attrs.name);
    CompletedLogSplit(key, [fileA, pseudo], 0);
    assert [fileA, pseudo][1..] == [pseudo];
    CompletedLogSingle(key, pseudo);
    assert Children([err, err], ErrorKind) == [err, err];
  }
}
