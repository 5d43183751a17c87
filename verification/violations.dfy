/**
  What a completely read Vera++ report asks the sink to record.

  Every `error` child of a `file` element becomes one call of
  saveUniqueViolation, unless the file is the pseudo-file named "error" that
  Vera++ uses for its own diagnostics. This module gives the declarative
  answer: the call log of a report is the concatenation, file by file, of each
  file's calls.
 */
module Violations {
  import opened VeraReport

  /** One saveUniqueViolation(repository key, file name, line, source, message) call, arguments in that order. */
  datatype Call = Call(repoKey: string, file: Option<string>, line: Option<string>,
                       source: Option<string>, message: Option<string>)

  /** The file name Vera++ gives to its own tool-level errors. */
  const ErrorPseudoFile: string := "error"

  /**
    A file is suppressed exactly when its name attribute is present and equals
    "error"; a file without a name attribute is not suppressed.
   */
  function Suppressed(name: Option<string>): (r: bool)
    ensures name.None? ==> !r
    ensures name.Some? ==> (r <==> name.value == ErrorPseudoFile)
  {
    name == Some(ErrorPseudoFile)
  }

  /** The call for error element `err` of a file called `name`: attributes passed through unchanged. */
  function CallFor(key: string, name: Option<string>, err: Element): (r: Call)
    ensures r.repoKey == key && r.file == name
    ensures r.line == err.attrs.line && r.source == err.attrs.source && r.message == err.attrs.message
  {
    Call(key, name, err.attrs.line, err.attrs.source, err.attrs.message)
  }

  /** The calls for the "error" elements `errs` of a file called `name`: one each, in order. */
  function ErrorCalls(key: string, name: Option<string>, errs: seq<Element>): (r: seq<Call>)
    ensures |r| == |errs|
    ensures forall j :: 0 <= j < |r| ==> r[j] == CallFor(key, name, errs[j])
  {
    seq(|errs|, j requires 0 <= j < |errs| => CallFor(key, name, errs[j]))
  }

  /** The calls for a file element: one per "error" child, in order, or none for the "error" pseudo-file. */
  function FileCalls(key: string, f: Element): (r: seq<Call>)
    ensures Suppressed(f.attrs.name) ==> r == []
    ensures !Suppressed(f.attrs.name) ==> |r| == |Children(f.children, ErrorKind)|
  {
    var name := f.attrs.name;
    if Suppressed(name) then [] else ErrorCalls(key, name, Children(f.children, ErrorKind))
  }

  /** The calls contributed by one child of the root: only "file" elements contribute. */
  function RootChildCalls(key: string, e: Element): (r: seq<Call>)
    ensures e.kind != FileKind ==> r == []
  {
    if e.kind == FileKind then FileCalls(key, e) else []
  }

  /** The calls of a run of file elements: each file's calls, file after file. */
  function FilesLog(key: string, files: seq<Element>): seq<Call>
  {
    if files == [] then [] else FileCalls(key, files[0]) + FilesLog(key, files[1..])
  }

  lemma {:induction false} FilesLogAppend(key: string, a: seq<Element>, b: seq<Element>)
    ensures FilesLog(key, a + b) == FilesLog(key, a) + FilesLog(key, b)
  {
    if a == [] {
      assert a + b == b;
    } else {
      assert (a + b)[0] == a[0];
      assert (a + b)[1..] == a[1..] + b;
      var h := FileCalls(key, a[0]);
      assert FilesLog(key, a + b) == h + FilesLog(key, a[1..] + b);
      FilesLogAppend(key, a[1..], b);
      assert h + (FilesLog(key, a[1..]) + FilesLog(key, b)) == (h + FilesLog(key, a[1..])) + FilesLog(key, b);
    }
  }

  /** The call log of a report read to its end: the calls of the "file" children of the root, in document order. */
  function CompletedLog(key: string, children: seq<Element>): seq<Call>
  {
    FilesLog(key, Children(children, FileKind))
  }

  /** The number of calls a complete report makes: the "error" children of every file not named "error". */
  function ViolationCount(children: seq<Element>): nat
  {
    if children == [] then 0
    else
      var e := children[0];
      (if e.kind == FileKind && !Suppressed(e.attrs.name) then |Children(e.children, ErrorKind)| else 0)
      + ViolationCount(children[1..])
  }

  /** Reading two runs of root children one after the other logs the first run's calls, then the second's. */
  lemma CompletedLogAppend(key: string, a: seq<Element>, b: seq<Element>)
    ensures CompletedLog(key, a + b) == CompletedLog(key, a) + CompletedLog(key, b)
  {
    ChildrenAppend(a, b, FileKind);
    FilesLogAppend(key, Children(a, FileKind), Children(b, FileKind));
  }

  /** A single root child logs exactly its own calls. */
  lemma CompletedLogSingle(key: string, e: Element)
    ensures CompletedLog(key, [e]) == RootChildCalls(key, e)
  {
    assert [e][1..] == [];
    if e.kind == FileKind {
      assert Children([e], FileKind) == [e];
      assert FilesLog(key, [e]) == FileCalls(key, e) + FilesLog(key, []);
    } else {
      assert Children([e], FileKind) == [];
    }
  }

  /**
    Document order: in the log, the calls of the root child at position i come
    after those of every earlier child and before those of every later one.
   */
  lemma CompletedLogSplit(key: string, children: seq<Element>, i: nat)
    requires i < |children|
    ensures CompletedLog(key, children) ==
      CompletedLog(key, children[..i]) + RootChildCalls(key, children[i]) + CompletedLog(key, children[i + 1..])
  {
    assert children == children[..i] + [children[i]] + children[i + 1..];
    CompletedLogAppend(key, children[..i] + [children[i]], children[i + 1..]);
    CompletedLogAppend(key, children[..i], [children[i]]);
    CompletedLogSingle(key, children[i]);
  }

  /** The number of calls on a complete report is the number of "error" children of files not named "error". */
  lemma {:induction false} CompletedLogCount(key: string, children: seq<Element>)
    ensures |CompletedLog(key, children)| == ViolationCount(children)
  {
    if children != [] {
      assert children == [children[0]] + children[1..];
      CompletedLogAppend(key, [children[0]], children[1..]);
      CompletedLogSingle(key, children[0]);
      CompletedLogCount(key, children[1..]);
    }
  }

  /** Call `c` is the one made for the j-th child of the i-th root child, which is an "error" element of a "file" not named "error". */
  ghost predicate EmittedAt(key: string, children: seq<Element>, i: int, j: int, c: Call)
  {
    && 0 <= i < |children|
    && children[i].kind == FileKind
    && !Suppressed(children[i].attrs.name)
    && 0 <= j < |children[i].children|
    && children[i].children[j].kind == ErrorKind
    && c == CallFor(key, children[i].attrs.name, children[i].children[j])
  }

  lemma FileCallsMembership(key: string, f: Element, c: Call)
    ensures c in FileCalls(key, f) <==>
      !Suppressed(f.attrs.name) &&
      exists x :: x in f.children && x.kind == ErrorKind && c == CallFor(key, f.attrs.name, x)
  {
    var name := f.attrs.name;
    var errs := Children(f.children, ErrorKind);
    var r := FileCalls(key, f);
    if !Suppressed(name) {
      if c in r {
        var j :| 0 <= j < |r| && r[j] == c;
        ChildrenMembership(f.children, ErrorKind, errs[j]);
      }
      if exists x :: x in f.children && x.kind == ErrorKind && c == CallFor(key, name, x) {
        var x :| x in f.children && x.kind == ErrorKind && c == CallFor(key, name, x);
        ChildrenMembership(f.children, ErrorKind, x);
        var j :| 0 <= j < |errs| && errs[j] == x;
        assert r[j] == c;
      }
    }
  }

  /** The calls of the first root child are the calls emitted at position 0. */
  lemma HeadMembership(key: string, children: seq<Element>, c: Call)
    requires children != []
    ensures c in RootChildCalls(key, children[0]) <==> exists j :: EmittedAt(key, children, 0, j, c)
  {
    var e := children[0];
    FileCallsMembership(key, e, c);
    if c in RootChildCalls(key, e) {
      var x :| x in e.children && x.kind == ErrorKind && c == CallFor(key, e.attrs.name, x);
      var j :| 0 <= j < |e.children| && e.children[j] == x;
      assert EmittedAt(key, children, 0, j, c);
    }
    if exists j :: EmittedAt(key, children, 0, j, c) {
      var j :| EmittedAt(key, children, 0, j, c);
      assert e.children[j] in e.children;
    }
  }

  /** A call is emitted at a position of the tail exactly when it is emitted one position later in the whole. */
  lemma TailMembership(key: string, children: seq<Element>, c: Call)
    requires children != []
    ensures (exists i, j :: EmittedAt(key, children[1..], i, j, c)) <==>
            (exists i, j :: 1 <= i && EmittedAt(key, children, i, j, c))
  {
    var rest := children[1..];
    if exists i, j :: EmittedAt(key, rest, i, j, c) {
      var i, j :| EmittedAt(key, rest, i, j, c);
      assert EmittedAt(key, children, i + 1, j, c);
    }
    if exists i, j :: 1 <= i && EmittedAt(key, children, i, j, c) {
      var i, j :| 1 <= i && EmittedAt(key, children, i, j, c);
      assert EmittedAt(key, rest, i - 1, j, c);
    }
  }

  /**
    Every call in the log of a complete report comes from an "error" child of a
    file not named "error", and every such child has its call in the log.
   */
  lemma {:induction false} CompletedLogMembership(key: string, children: seq<Element>, c: Call)
    ensures c in CompletedLog(key, children) <==>
      exists i, j :: EmittedAt(key, children, i, j, c)
  {
    if children != [] {
      var e := children[0];
      var rest := children[1..];
      assert children == [e] + rest;
      CompletedLogAppend(key, [e], rest);
      CompletedLogSingle(key, e);
      CompletedLogMembership(key, rest, c);
      HeadMembership(key, children, c);
      TailMembership(key, children, c);
      assert (exists i, j :: EmittedAt(key, children, i, j, c)) <==>
             (exists j :: EmittedAt(key, children, 0, j, c)) ||
             (exists i, j :: 1 <= i && EmittedAt(key, children, i, j, c));
    }
  }

  /** Every call of the log carries the repository key it was given. */
  lemma {:induction false} CompletedLogKey(key: string, children: seq<Element>)
    ensures forall c :: c in CompletedLog(key, children) ==> c.repoKey == key
  {
    forall c | c in CompletedLog(key, children)
      ensures c.repoKey == key
    {
      CompletedLogMembership(key, children, c);
    }
  }

  /**
    A file named "error" contributes nothing, whatever its children: the log is
    the same as if the element were not there.
   */
  lemma SuppressedFileIsInvisible(key: string, children: seq<Element>, i: nat)
    requires i < |children| && children[i].kind == FileKind
    requires Suppressed(children[i].attrs.name)
    ensures CompletedLog(key, children) == CompletedLog(key, children[..i] + children[i + 1..])
  {
    CompletedLogSplit(key, children, i);
    CompletedLogAppend(key, children[..i], children[i + 1..]);
  }

  /**
    Renaming one file changes only that file's share of the log: the calls of
    the files before and after it stay where they were.
   */
  lemma RenameChangesOnlyThatFile(key: string, children: seq<Element>, i: nat, n: Option<string>)
    requires i < |children| && children[i].kind == FileKind
    ensures CompletedLog(key, children[i := Rename(children[i], n)]) ==
      CompletedLog(key, children[..i]) + FileCalls(key, Rename(children[i], n)) + CompletedLog(key, children[i + 1..])
  {
    var renamed := children[i := Rename(children[i], n)];
    assert renamed[..i] == children[..i];
    assert renamed[i + 1..] == children[i + 1..];
    CompletedLogSplit(key, renamed, i);
  }

  /** Renaming a file to "error" removes exactly its calls from the log. */
  lemma RenameToErrorDropsFile(key: string, children: seq<Element>, i: nat)
    requires i < |children| && children[i].kind == FileKind
    ensures CompletedLog(key, children[i := Rename(children[i], Some(ErrorPseudoFile))]) ==
      CompletedLog(key, children[..i]) + CompletedLog(key, children[i + 1..])
  {
    RenameChangesOnlyThatFile(key, children, i, Some(ErrorPseudoFile));
  }

  /**
    Renaming the "error" pseudo-file to any other name (or removing its name)
    inserts one call per "error" child, carrying the new name, at its place in the log.
   */
  lemma RenameFromErrorRestoresFile(key: string, children: seq<Element>, i: nat, n: Option<string>)
    requires i < |children| && children[i].kind == FileKind
    requires Suppressed(children[i].attrs.name) && !Suppressed(n)
    ensures CompletedLog(key, children) == CompletedLog(key, children[..i]) + CompletedLog(key, children[i + 1..])
    ensures CompletedLog(key, children[i := Rename(children[i], n)]) ==
      CompletedLog(key, children[..i])
      + ErrorCalls(key, n, Children(children[i].children, ErrorKind))
      + CompletedLog(key, children[i + 1..])
  {
    SuppressedFileIsInvisible(key, children, i);
    CompletedLogAppend(key, children[..i], children[i + 1..]);
    RenameChangesOnlyThatFile(key, children, i, n);
    var f := Rename(children[i], n);
    assert f.attrs.name == n && f.children == children[i].children;
    assert FileCalls(key, f) == ErrorCalls(key, n, Children(f.children, ErrorKind));
  }
}
