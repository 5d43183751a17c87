# Vera++ report sensor: a Dafny model

This project models how the C++ community plugin's Vera++ sensor
(`CxxVeraxxSensor.processReport` and the stream handler it installs) turns
one Vera++ XML report into calls of `saveUniqueViolation`, and proves
properties of that model.

The report is taken as already parsed. It is a root element whose children
are elements of three kinds: "file", "error" and anything else. Each element
carries the attributes the sensor reads. A report may also be empty: the
first advance of the root cursor reaches end of input. Or an
unexpected-character fault may strike after a given number of visited
elements. The model produces the ordered log of `saveUniqueViolation`
calls and one outcome:

- **Empty**: the `EmptyReportException` thrown on end of input at the first advance.
- **Corrupt**: the swallowed `WstxUnexpectedCharException`.
- **Completed**: the report was read to its end.

Modules:

- `VeraReport` (report.dfy): the parsed report. `Children` is the
  tag-filtered child cursor. `Rename` changes a file's "name" attribute and
  is used to state properties.
- `Violations` (violations.dfy): the declarative answer. A completely read
  report logs, file after file, one call per "error" child of each "file"
  element. A file named "error" logs nothing. Every attribute is passed
  through verbatim.
- `Traversal` (traversal.dfy): the trace answer. These are the elements the
  two nested cursors visit, in document order, and the call made at each
  visit. `TraceAgreesWithLog` proves that the two answers agree.
- `VeraxxSensor` (sensor.dfy): `ProcessReport` gives the outcome.
  `StreamRoot`, `StreamChild`, `StreamErrors` and `ErrorStep` are the nested cursor loops
  as the source writes them. `StreamReport` is the catch wrapper. The
  property lemmas are about `ProcessReport`.

Three behaviours of the sensor are easy to assume otherwise:

- On a corrupt report, the calls made before the fault stay made.
  `saveUniqueViolation` is called as each entry is visited (lines 90-91), and
  the catch at lines 105-107 neither rolls back nor rethrows
  (`FaultInsideFile`, `FaultAtChildBoundary`).
- The sensor does no deduplication. Two identical "error" elements give two
  identical calls (`DuplicateEntriesBothForwarded`). Whatever merging happens
  is up to `saveUniqueViolation`, whose body is not part of this model.
- "Empty" means that the first advance of the root cursor hits end of input
  (lines 73-77). Nothing else makes a report Empty.

## Model

| member | source | states |
|---|---|---|
| VeraxxSensor.ProcessReport | cxx-sensors/src/main/java/org/sonar/cxx/sensors/veraxx/CxxVeraxxSensor.java:63-108 | The outcome is Empty exactly when the first advance hits end of input, and then no call is made. It is Completed exactly when the report is read without a fault, and then the calls are the complete log, one per "error" child of a file not named "error". It is Corrupt otherwise, and then the calls are a prefix of the complete log; FaultInsideFile and FaultAtChildBoundary give that prefix exactly. Every call carries the repository key |
| VeraxxSensor.StreamReport | cxx-sensors/src/main/java/org/sonar/cxx/sensors/veraxx/CxxVeraxxSensor.java:66-107 | The handler plus the catch compute exactly what ProcessReport describes: empty input, a swallowed fault, or a full read |
| VeraxxSensor.StreamRoot | cxx-sensors/src/main/java/org/sonar/cxx/sensors/veraxx/CxxVeraxxSensor.java:79-100 | The outer file cursor loop makes exactly the complete log when no fault strikes within the traversal. When a fault strikes, it has made exactly the calls of the visits before the fault |
| VeraxxSensor.StreamChild | cxx-sensors/src/main/java/org/sonar/cxx/sensors/veraxx/CxxVeraxxSensor.java:80-99 | One turn of the file cursor extends the log by that root child's calls, or stops with the calls of the visits before the fault |
| VeraxxSensor.StreamErrors | cxx-sensors/src/main/java/org/sonar/cxx/sensors/veraxx/CxxVeraxxSensor.java:83-99 | The error cursor of one file appends, in order, the call of each visited "error" child, or none if the file is named "error". A fault lands inside that file's visits and keeps the calls made before it |
| VeraxxSensor.CallsBeforeFault | cxx-sensors/src/main/java/org/sonar/cxx/sensors/veraxx/CxxVeraxxSensor.java:104-107 | What survives a swallowed fault is a prefix of the complete log. It is the whole log when the fault comes after the last visit |
| VeraxxSensor.FaultLaterLogsMore | cxx-sensors/src/main/java/org/sonar/cxx/sensors/veraxx/CxxVeraxxSensor.java:104-107 | A later fault never loses calls: the log left by an earlier fault is a prefix of the log left by a later one |
| VeraxxSensor.FaultInsideFile | cxx-sensors/src/main/java/org/sonar/cxx/sensors/veraxx/CxxVeraxxSensor.java:84-107 | A fault on arrival at the j-th "error" child of file i keeps the complete log of the children before i, then the calls of that file's first j errors (none if the file is named "error"): every call is made when its entry is visited, nothing is buffered or withdrawn |
| VeraxxSensor.ErrorStep | cxx-sensors/src/main/java/org/sonar/cxx/sensors/veraxx/CxxVeraxxSensor.java:84-98 | One step of the error cursor: an "error" child adds its visit and, unless the file is named "error", its call; any other child is stepped over; a fault on arrival keeps the calls made so far |
| VeraxxSensor.FaultAtChildBoundary | cxx-sensors/src/main/java/org/sonar/cxx/sensors/veraxx/CxxVeraxxSensor.java:104-107 | A fault just before root child i keeps exactly the complete log of the children before i: there is no rollback |
| VeraxxSensor.NoCallForErrorPseudoFile | cxx-sensors/src/main/java/org/sonar/cxx/sensors/veraxx/CxxVeraxxSensor.java:85-91 | Whatever the report and however processing ends, no call names the file "error" |
| VeraxxSensor.ForeignRootChildIgnored | cxx-sensors/src/main/java/org/sonar/cxx/sensors/veraxx/CxxVeraxxSensor.java:79-80 | Inserting a root child that is not a "file" element anywhere changes neither the calls nor the outcome, with or without a fault |
| VeraxxSensor.ForeignFileChildIgnored | cxx-sensors/src/main/java/org/sonar/cxx/sensors/veraxx/CxxVeraxxSensor.java:83-84 | Inserting a child that is not an "error" element anywhere inside a file changes neither the calls nor the outcome |
| VeraxxSensor.DuplicateEntriesBothForwarded | cxx-sensors/src/main/java/org/sonar/cxx/sensors/veraxx/CxxVeraxxSensor.java:84-91 | A file with the same error twice, followed by the "error" pseudo-file, gives two identical calls and Completed |
| Violations.Suppressed | cxx-sensors/src/main/java/org/sonar/cxx/sensors/veraxx/CxxVeraxxSensor.java:85 | A file is suppressed only when its name attribute is present and equal to "error"; a file without a name attribute is not suppressed |
| Violations.CallFor | cxx-sensors/src/main/java/org/sonar/cxx/sensors/veraxx/CxxVeraxxSensor.java:86-91 | A call carries the repository key, the file's name, and the error's line, source and message, unchanged and in that argument order |
| Violations.ErrorCalls | cxx-sensors/src/main/java/org/sonar/cxx/sensors/veraxx/CxxVeraxxSensor.java:84-91 | One call per error element, at the same position |
| Violations.FileCalls | cxx-sensors/src/main/java/org/sonar/cxx/sensors/veraxx/CxxVeraxxSensor.java:83-98 | A file named "error" contributes no call. Any other file contributes as many calls as it has "error" children |
| Violations.RootChildCalls | cxx-sensors/src/main/java/org/sonar/cxx/sensors/veraxx/CxxVeraxxSensor.java:79-80 | A root child that is not a "file" element contributes nothing |
| Violations.FileCallsMembership | cxx-sensors/src/main/java/org/sonar/cxx/sensors/veraxx/CxxVeraxxSensor.java:83-91 | A call is among a file's calls if and only if the file is not named "error" and the call is the one for some "error" child of it |
| Violations.CompletedLogAppend | cxx-sensors/src/main/java/org/sonar/cxx/sensors/veraxx/CxxVeraxxSensor.java:79-100 | The log of two runs of root children is the first run's log followed by the second's: document order, nothing merged |
| Violations.CompletedLogSingle | cxx-sensors/src/main/java/org/sonar/cxx/sensors/veraxx/CxxVeraxxSensor.java:79-80 | The log of a single root child is that child's contribution |
| Violations.CompletedLogSplit | cxx-sensors/src/main/java/org/sonar/cxx/sensors/veraxx/CxxVeraxxSensor.java:79-100 | The log is the log before child i, then child i's calls, then the log after it |
| Violations.CompletedLogCount | cxx-sensors/src/main/java/org/sonar/cxx/sensors/veraxx/CxxVeraxxSensor.java:80-91 | The number of calls is the sum, over "file" elements not named "error", of their "error" children |
| Violations.CompletedLogMembership | cxx-sensors/src/main/java/org/sonar/cxx/sensors/veraxx/CxxVeraxxSensor.java:79-91 | A call is in the log if and only if it is the call for some "error" child of some "file" root child not named "error" |
| Violations.CompletedLogKey | cxx-sensors/src/main/java/org/sonar/cxx/sensors/veraxx/CxxVeraxxSensor.java:90-91 | Every logged call carries the repository key it was given |
| Violations.SuppressedFileIsInvisible | cxx-sensors/src/main/java/org/sonar/cxx/sensors/veraxx/CxxVeraxxSensor.java:85 | Removing a file named "error" from the report leaves the log unchanged |
| Violations.RenameChangesOnlyThatFile | cxx-sensors/src/main/java/org/sonar/cxx/sensors/veraxx/CxxVeraxxSensor.java:81-91 | Renaming one file changes only that file's part of the log. The logs before and after it are untouched |
| Violations.RenameToErrorDropsFile | cxx-sensors/src/main/java/org/sonar/cxx/sensors/veraxx/CxxVeraxxSensor.java:85 | Renaming a file to "error" removes exactly its calls from the log |
| Violations.RenameFromErrorRestoresFile | cxx-sensors/src/main/java/org/sonar/cxx/sensors/veraxx/CxxVeraxxSensor.java:85-91 | Renaming the "error" file to any other name inserts, at its position, one call per "error" child under the new name |
| VeraReport.Children | cxx-sensors/src/main/java/org/sonar/cxx/sensors/veraxx/CxxVeraxxSensor.java:79-80 | A tag-filtered child cursor yields no more elements than there are children |
| VeraReport.ChildrenMembership | cxx-sensors/src/main/java/org/sonar/cxx/sensors/veraxx/CxxVeraxxSensor.java:83-84 | A filtered cursor yields exactly the children that carry its tag |
| VeraReport.ChildrenAppend | cxx-sensors/src/main/java/org/sonar/cxx/sensors/veraxx/CxxVeraxxSensor.java:79-80 | Filtering keeps document order: it distributes over concatenation |
| Traversal.ErrorVisits | cxx-sensors/src/main/java/org/sonar/cxx/sensors/veraxx/CxxVeraxxSensor.java:83-84 | The error cursor of a file makes one visit per "error" child |
| Traversal.ErrorVisitsAre | cxx-sensors/src/main/java/org/sonar/cxx/sensors/veraxx/CxxVeraxxSensor.java:83-84 | The error cursor visits exactly the "error" children, in document order, each tagged with the file's name |
| Traversal.RootChildVisits | cxx-sensors/src/main/java/org/sonar/cxx/sensors/veraxx/CxxVeraxxSensor.java:79-83 | A root child that is not a "file" element gets no visit. A file gets the arrival visit, carrying its name, then one visit per "error" child |
| Traversal.FileVisitsNamed | cxx-sensors/src/main/java/org/sonar/cxx/sensors/veraxx/CxxVeraxxSensor.java:81-84 | After the arrival at a file, its visits are its "error" children in order, all carrying the name read once on arrival |
| Traversal.Visits | cxx-sensors/src/main/java/org/sonar/cxx/sensors/veraxx/CxxVeraxxSensor.java:79-80 | The file cursor's traversal makes one visit per "file" element and one per "error" child of it |
| Traversal.VisitCallsExactly | cxx-sensors/src/main/java/org/sonar/cxx/sensors/veraxx/CxxVeraxxSensor.java:85-98 | The definition of the call made at a visit: one exactly when it reaches an "error" element of a file not named "error", and that call is the element's |
| Traversal.CallsOf | cxx-sensors/src/main/java/org/sonar/cxx/sensors/veraxx/CxxVeraxxSensor.java:84-91 | A run of visits makes at most one call per visit |
| Traversal.CallsOfAppend | cxx-sensors/src/main/java/org/sonar/cxx/sensors/veraxx/CxxVeraxxSensor.java:84-91 | Calls are made visit by visit, so the calls of consecutive runs of visits concatenate |
| Traversal.ErrorVisitRunCalls | cxx-sensors/src/main/java/org/sonar/cxx/sensors/veraxx/CxxVeraxxSensor.java:84-91 | A run of error visits of one file makes the calls of the visited elements in order, or none if the file is named "error" |
| Traversal.ErrorVisitsCalls | cxx-sensors/src/main/java/org/sonar/cxx/sensors/veraxx/CxxVeraxxSensor.java:83-99 | Walking one file with the error cursor makes exactly that file's calls, or none if it is named "error" |
| Traversal.RootChildVisitsCalls | cxx-sensors/src/main/java/org/sonar/cxx/sensors/veraxx/CxxVeraxxSensor.java:80-99 | The visits at one root child make exactly the calls that child contributes to the log |
| Traversal.TraceAgreesWithLog | cxx-sensors/src/main/java/org/sonar/cxx/sensors/veraxx/CxxVeraxxSensor.java:79-100 | The cursor trace, read to its end, makes exactly the calls of the declarative log, in the same order |

## Left out

- XML lexing. StAX, Staxmate and Woodstox are not part of this model. The report is an already-parsed element tree, and the two reader faults the sensor distinguishes are inputs: end of input at the first advance, and an unexpected character after a given number of visits.
- Faults positioned inside skipped content. A fault inside a skipped element (neither "file" nor "error") is modelled as striking at the next visited element. So is a fault inside a visited element's content or end tag, or between elements. The calls made before it are the same either way. A fault after the last element is a fault position at or beyond the number of visits: Corrupt, with the complete log.
- Whitespace-only input. Whether it reaches end of input at the first advance is a question for the lexer.
- Other `XMLStreamException`s, I/O errors and faults of the sink. These propagate out of `processReport` and are not modelled.
- The body of `saveUniqueViolation`. It belongs to the report sensor base class, which is not part of this model, and this includes any deduplication it does. The model records the calls themselves.
- The repository key is the parameter `key`, because `CxxVeraxxRuleRepository` is not part of this model.
- Debug and error logging. This covers the debug line for entries of the "error" file and the error log in the catch; neither affects the calls.
- `describe`, `getSensorKey`, the report-path key and the `SensorContext` wiring are framework plumbing.
