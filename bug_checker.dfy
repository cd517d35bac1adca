/**
 * `handleCheck` of frontend/src/components/BugChecker.js: with no selected files
 * it reports so without a request; otherwise it posts the files and turns the
 * reply into a verdict (`result`) and one log line per reported error, or one
 * "No bugs" line per clean file (`errorLog`). The reply is a parameter: the
 * server being unreachable (or answering something that is not JSON) is one
 * case, the parsed `data` the other.
 */
module BugChecker {
  import opened Options
  import opened JsText
  import BugDetector
  import UploadRoute

  /** One element of a file's `errors`: a plain string, or an object whose fields
      may be absent. */
  datatype ErrorItem =
    | Text(text: string)
    | Record(line: Option<int>, column: Option<int>, message: Option<string>, ruleId: Option<string>)

  /** `{ name, errors }`, `errors` possibly absent. */
  datatype FileResult = FileResult(name: string, errors: Option<seq<ErrorItem>>)

  datatype BugData = BugData(files: Option<seq<FileResult>>)

  /** `await response.json()`: a falsy value, or an object with optional `files` and
      `bugData` properties. */
  datatype Data = Falsy | Object(files: Option<seq<FileResult>>, bugData: Option<BugData>)

  /** The outcome of the request. */
  datatype Reply = Unreachable | Received(data: Data)

  /** What `handleCheck` leaves in `result` and `errorLog`. */
  datatype CheckState = CheckState(result: string, errorLog: seq<string>)

  const NoFilesState := CheckState("⚠ No files selected", ["Please upload files to check for bugs."])
  const FailedState := CheckState("⚠ Bug check failed", ["No data received from backend"])
  const UnreachableState := CheckState("❌ Error connecting to server", ["❌ Could not reach backend"])
  const BugsFound := "Bug(s) Found ❌"
  const NoBugs := "No Bugs ✅"

  /** `${x || "-"}` for a numeric field: absent and 0 are falsy. */
  function NumberText(x: Option<int>): string {
    if x.None? || x.value == 0 then "-" else IntToString(x.value)
  }

  /** `${err.message || err}`: an object without a truthy message prints as
      `[object Object]`, a string as itself. */
  function MessageText(err: ErrorItem): string {
    match err
    case Text(s) => s
    case Record(_, _, message, _) =>
      if message.Some? && message.value != "" then message.value else "[object Object]"
  }

  /** `${err.ruleId ? `(${err.ruleId})` : ""}` */
  function RuleSuffix(err: ErrorItem): string {
    if err.Record? && err.ruleId.Some? && err.ruleId.value != "" then "(" + err.ruleId.value + ")" else ""
  }

  function LineField(err: ErrorItem): Option<int> {
    if err.Record? then err.line else None
  }

  function ColumnField(err: ErrorItem): Option<int> {
    if err.Record? then err.column else None
  }

  /** The log line of one error. */
  function ErrorLine(name: string, err: ErrorItem): string {
    "File: " + name + " | Line " + NumberText(LineField(err)) + ", Col " + NumberText(ColumnField(err))
    + ": " + MessageText(err) + " " + RuleSuffix(err)
  }

  /** The log line of a file without errors. */
  function CleanLine(name: string): string {
    "File: " + name + " - No bugs ✅"
  }

  /** A file's errors; absent errors are handled before the log is built. */
  function ErrorsOf(f: FileResult): seq<ErrorItem> {
    if f.errors.Some? then f.errors.value else []
  }

  /** The lines of a file's errors, each rendered by `render`, in order. */
  function ErrorLines(errors: seq<ErrorItem>, render: ErrorItem -> string): seq<string> {
    if errors == [] then [] else ErrorLines(errors[..|errors| - 1], render) + [render(errors[|errors| - 1])]
  }

  /** The rendering of the errors of file `name`. */
  function Render(name: string): ErrorItem -> string {
    (err: ErrorItem) => ErrorLine(name, err)
  }

  /** The lines one file contributes. */
  function FileLines(f: FileResult): seq<string> {
    if |ErrorsOf(f)| > 0 then ErrorLines(ErrorsOf(f), Render(f.name)) else [CleanLine(f.name)]
  }

  /** The whole log, file by file. */
  function LogLines(files: seq<FileResult>): seq<string> {
    if files == [] then [] else LogLines(files[..|files| - 1]) + FileLines(files[|files| - 1])
  }

  /** `data.files.some(f => f.errors.length > 0)` */
  function AnyErrors(files: seq<FileResult>): bool {
    if files == [] then false else |ErrorsOf(files[0])| > 0 || AnyErrors(files[1..])
  }

  /** Reading `errors` of a file without that property throws, and the handler's
      `catch` then reports the server as unreachable. */
  predicate AllHaveErrors(files: seq<FileResult>) {
    forall k :: 0 <= k < |files| ==> files[k].errors.Some?
  }

  /** `data.files`, as the handler reads it. */
  function FilesAsWritten(data: Data): Option<seq<FileResult>> {
    if data.Object? then data.files else None
  }

  /** `data.bugData.files`, where the backend puts the reports. */
  function FilesFixed(data: Data): Option<seq<FileResult>> {
    if data.Object? && data.bugData.Some? then data.bugData.value.files else None
  }

  /** The state `handleCheck` leaves, reading the file list with `read`. */
  function Outcome(selectedCount: Option<nat>, reply: Reply, read: Data -> Option<seq<FileResult>>): CheckState {
    if selectedCount.None? || selectedCount.value == 0 then NoFilesState
    else if reply.Unreachable? then UnreachableState
    else if read(reply.data).None? then FailedState
    else
      var files := read(reply.data).value;
      if !AllHaveErrors(files) then UnreachableState
      else CheckState(if AnyErrors(files) then BugsFound else NoBugs, LogLines(files))
  }

  /** `handleCheck` as written, reading `data.files`. */
  function CheckOutcome(selectedCount: Option<nat>, reply: Reply): CheckState {
    Outcome(selectedCount, reply, FilesAsWritten)
  }

  /** `handleCheck` reading the backend's `data.bugData.files`. */
  function CheckOutcomeFixed(selectedCount: Option<nat>, reply: Reply): CheckState {
    Outcome(selectedCount, reply, FilesFixed)
  }

  /** The outer `forEach` that fills `logs`, file by file. */
  method BuildLog(files: seq<FileResult>) returns (logs: seq<string>)
    requires AllHaveErrors(files)
    ensures logs == LogLines(files)
  {
    logs := [];
    for i := 0 to |files|
      invariant logs == LogLines(files[..i])
    {
      assert files[..i + 1][..i] == files[..i];
      var lines := FileLog(files[i]);
      logs := logs + lines;
    }
    assert files[..|files|] == files;
  }

  /** The lines of one file: the inner `forEach` over its errors, or the "No bugs"
      line. */
  method FileLog(f: FileResult) returns (lines: seq<string>)
    requires f.errors.Some?
    ensures lines == FileLines(f)
  {
    var errors := f.errors.value;
    if |errors| == 0 {
      return [CleanLine(f.name)];
    }
    var render := Render(f.name);
    lines := [];
    for j := 0 to |errors|
      invariant lines == ErrorLines(errors[..j], render)
    {
      assert errors[..j + 1][..j] == errors[..j];
      lines := lines + [render(errors[j])];
    }
    assert errors[..|errors|] == errors;
  }

  /** The `result` and `errorLog` state of the component. */
  class CheckerView {
    var result: string
    var errorLog: seq<string>

    constructor()
      ensures result == "" && errorLog == []
    {
      result := "";
      errorLog := [];
    }

    /** `handleCheck`, given the number of selected files (absent when there is no
        `files` prop) and the reply the request would get; `sent` tells whether a
        request is made. */
    method HandleCheck(selectedCount: Option<nat>, reply: Reply) returns (sent: bool)
      modifies this
      ensures sent <==> selectedCount.Some? && selectedCount.value > 0
      ensures CheckState(result, errorLog) == CheckOutcomeFixed(selectedCount, reply)
    {
      if selectedCount.None? || selectedCount.value == 0 {
        result, errorLog := NoFilesState.result, NoFilesState.errorLog;
        return false;
      }
      sent := true;
      if reply.Unreachable? {
        result, errorLog := UnreachableState.result, UnreachableState.errorLog;
        return;
      }
      var files := FilesFixed(reply.data);
      if files.None? {
        result, errorLog := FailedState.result, FailedState.errorLog;
        return;
      }
      var list := files.value;
      var complete := AllHaveErrorsCheck(list);
      if !complete {
        result, errorLog := UnreachableState.result, UnreachableState.errorLog;
        return;
      }
      result := if AnyErrors(list) then BugsFound else NoBugs;
      errorLog := BuildLog(list);
    }
  }

  /** Whether every file has an `errors` list. */
  method AllHaveErrorsCheck(files: seq<FileResult>) returns (ok: bool)
    ensures ok == AllHaveErrors(files)
  {
    ok := true;
    for k := 0 to |files|
      invariant ok == AllHaveErrors(files[..k])
    {
      if files[k].errors.None? {
        ok := false;
      }
    }
    assert files[..|files|] == files;
  }

  // ---------------------------------------------------------------------------
  // Properties

  /** The number of lines the log gets: one per error, and one for a file with
      none. */
  function LogSize(files: seq<FileResult>): nat {
    if files == [] then 0
    else LogSize(files[..|files| - 1]) + (if |ErrorsOf(files[|files| - 1])| > 0 then |ErrorsOf(files[|files| - 1])| else 1)
  }

  /** Each error of a file gets its own line, in order. */
  lemma {:induction false} ErrorLinesSpec(errors: seq<ErrorItem>, render: ErrorItem -> string)
    ensures |ErrorLines(errors, render)| == |errors|
    ensures forall k :: 0 <= k < |errors| ==> ErrorLines(errors, render)[k] == render(errors[k])
  {
    if errors != [] {
      ErrorLinesSpec(errors[..|errors| - 1], render);
    }
  }

  /** The log has Σ max(1, |errors|) lines, and the lines of later files follow
      those of earlier ones. */
  lemma {:induction false} LogLinesSpec(files: seq<FileResult>)
    ensures |LogLines(files)| == LogSize(files)
  {
    if files != [] {
      LogLinesSpec(files[..|files| - 1]);
      var f := files[|files| - 1];
      ErrorLinesSpec(ErrorsOf(f), Render(f.name));
    }
  }

  lemma {:induction false} LogLinesAppend(a: seq<FileResult>, b: seq<FileResult>)
    ensures LogLines(a + b) == LogLines(a) + LogLines(b)
  {
    if b != [] {
      var b' := b[..|b| - 1];
      assert (a + b)[..|a + b| - 1] == a + b';
      assert (a + b)[|a + b| - 1] == b[|b| - 1];
      LogLinesAppend(a, b');
      ConcatAssoc(LogLines(a), LogLines(b'), FileLines(b[|b| - 1]));
    } else {
      assert a + b == a;
    }
  }

  /** A file with no errors gets exactly the line `File: NAME - No bugs ✅`. */
  lemma CleanFileLine(name: string)
    ensures LogLines([FileResult(name, Some([]))]) == ["File: " + name + " - No bugs ✅"]
  {
    assert [FileResult(name, Some([]))][..0] == [];
  }

  /** The verdict is "Bug(s) Found ❌" exactly when some file has errors. */
  lemma {:induction false} AnyErrorsSpec(files: seq<FileResult>)
    ensures AnyErrors(files) <==> exists k :: 0 <= k < |files| && |ErrorsOf(files[k])| > 0
  {
    if files != [] {
      AnyErrorsSpec(files[1..]);
      if AnyErrors(files[1..]) {
        var k :| 0 <= k < |files[1..]| && |ErrorsOf(files[1..][k])| > 0;
        assert files[k + 1] == files[1..][k];
      }
      if exists k :: 0 <= k < |files| && |ErrorsOf(files[k])| > 0 {
        var k :| 0 <= k < |files| && |ErrorsOf(files[k])| > 0;
        if k > 0 {
          assert files[1..][k - 1] == files[k];
        }
      }
    }
  }

  /** With files selected and a reply listing every file's errors, the verdict
      says whether any file has errors and the log has Σ max(1, |errors|) lines. */
  lemma OutcomeSpec(selectedCount: nat, data: Data, read: Data -> Option<seq<FileResult>>)
    requires selectedCount > 0 && read(data).Some? && AllHaveErrors(read(data).value)
    ensures var s := Outcome(Some(selectedCount), Received(data), read);
      && (s.result == BugsFound <==> exists k :: 0 <= k < |read(data).value| && |ErrorsOf(read(data).value[k])| > 0)
      && (s.result != BugsFound ==> s.result == NoBugs)
      && |s.errorLog| == LogSize(read(data).value)
  {
    AnyErrorsSpec(read(data).value);
    LogLinesSpec(read(data).value);
  }

  /** A message without a truthy `ruleId` leaves a trailing space. */
  lemma TrailingSpaceWithoutRule(name: string, err: ErrorItem)
    requires !(err.Record? && err.ruleId.Some? && err.ruleId.value != "")
    ensures EndsWith(ErrorLine(name, err), MessageText(err) + " ")
  {
    var line := ErrorLine(name, err);
    var tail := MessageText(err) + " ";
    assert line == ("File: " + name + " | Line " + NumberText(LineField(err)) + ", Col "
                    + NumberText(ColumnField(err)) + ": ") + tail;
  }

  // ---------------------------------------------------------------------------
  // The backend's reply

  /** A detector diagnostic as the JSON reply carries it. */
  function ItemOf(d: BugDetector.Diagnostic): ErrorItem {
    Record(Some(d.line), Some(d.column), Some(d.Message()), Some(d.RuleId()))
  }

  function ItemsOf(ds: seq<BugDetector.Diagnostic>): (items: seq<ErrorItem>)
    ensures |items| == |ds|
    ensures forall k :: 0 <= k < |ds| ==> items[k] == ItemOf(ds[k])
  {
    if ds == [] then [] else [ItemOf(ds[0])] + ItemsOf(ds[1..])
  }

  function ResultsOf(reports: seq<UploadRoute.FileReport>): (files: seq<FileResult>)
    ensures |files| == |reports|
    ensures forall k :: 0 <= k < |reports| ==>
      files[k] == FileResult(reports[k].name, Some(ItemsOf(reports[k].errors)))
  {
    if reports == [] then [] else [FileResult(reports[0].name, Some(ItemsOf(reports[0].errors)))] + ResultsOf(reports[1..])
  }

  /** The parsed reply of the backend/index.js `/upload` route:
      `{ graphData, bugData: { files } }`, with no top-level `files`. */
  function BackendData(response: UploadRoute.Response): Data {
    Object(None, Some(BugData(Some(ResultsOf(response.bugFiles)))))
  }

  /** As written, any reply of the backend ends in "⚠ Bug check failed": the
      handler looks for `files` at the top level. */
  lemma BackendReplyRejected(selectedCount: nat, uploads: seq<UploadRoute.UploadedFile>)
    requires selectedCount > 0
    ensures var response := UploadRoute.Response(
              UploadRoute.GraphData(UploadRoute.Nodes(uploads), UploadRoute.Links(uploads)), UploadRoute.Reports(uploads));
      CheckOutcome(Some(selectedCount), Received(BackendData(response))) == FailedState
  {
  }

  /** Reading `bugData.files`, the verdict on a backend reply is "Bug(s) Found ❌"
      exactly when some accepted upload has a diagnostic, and the log has one line
      per diagnostic plus one per clean file. */
  lemma BackendReplyChecked(selectedCount: nat, uploads: seq<UploadRoute.UploadedFile>)
    requires selectedCount > 0
    ensures var reports := UploadRoute.Reports(uploads);
      var response := UploadRoute.Response(
        UploadRoute.GraphData(UploadRoute.Nodes(uploads), UploadRoute.Links(uploads)), reports);
      var s := CheckOutcomeFixed(Some(selectedCount), Received(BackendData(response)));
      && (s.result == BugsFound <==> exists k :: 0 <= k < |reports| && |reports[k].errors| > 0)
      && s.errorLog == LogLines(ResultsOf(reports))
      && |s.errorLog| == LogSize(ResultsOf(reports))
  {
    var reports := UploadRoute.Reports(uploads);
    var response := UploadRoute.Response(
      UploadRoute.GraphData(UploadRoute.Nodes(uploads), UploadRoute.Links(uploads)), reports);
    var data := BackendData(response);
    var files := ResultsOf(reports);
    assert FilesFixed(data) == Some(files);
    OutcomeSpec(selectedCount, data, FilesFixed);
    forall k | 0 <= k < |reports| ensures |ErrorsOf(files[k])| == |reports[k].errors| {
    }
  }

  /** A detector diagnostic (line numbers start at 1) is logged with its line, its
      column or `-` when the column is 0, its message and its rule id. */
  lemma DiagnosticLine(name: string, d: BugDetector.Diagnostic)
    requires d.line >= 1
    ensures ErrorLine(name, ItemOf(d))
         == "File: " + name + " | Line " + NatToString(d.line)
            + ", Col " + (if d.column == 0 then "-" else NatToString(d.column))
            + ": " + d.Message() + " (" + d.RuleId() + ")"
  {
    var item := ItemOf(d);
    var col := if d.column == 0 then "-" else NatToString(d.column);
    assert NumberText(LineField(item)) == NatToString(d.line);
    assert NumberText(ColumnField(item)) == col;
    assert MessageText(item) == d.Message() by { RuleTextsNonEmpty(d.rule); }
    assert RuleSuffix(item) == "(" + d.RuleId() + ")" by { RuleTextsNonEmpty(d.rule); }
    ErrorLineOfParts(name, item, NatToString(d.line), col, d.Message(), d.RuleId());
  }

  /** The layout of a log line whose error has a rule id. */
  lemma ErrorLineOfParts(name: string, item: ErrorItem, line: string, column: string, message: string, ruleId: string)
    requires NumberText(LineField(item)) == line && NumberText(ColumnField(item)) == column
    requires MessageText(item) == message && RuleSuffix(item) == "(" + ruleId + ")"
    ensures ErrorLine(name, item)
         == "File: " + name + " | Line " + line + ", Col " + column + ": " + message + " (" + ruleId + ")"
  {
  }

  lemma RuleTextsNonEmpty(r: BugDetector.Rule)
    ensures r.Message() != "" && r.RuleId() != ""
  {
    match r
    case TodoComment =>
    case NoConsole =>
    case IncompleteImport =>
    case MissingSemicolon =>
    case MaxLen =>
  }
}
