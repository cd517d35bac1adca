/**
 * `detectBugs(filePath, ext)` of backend/index.js: a five-rule line linter over
 * the file text split on "\n". Each line is checked, in this order, for a
 * TODO/FIXME comment, a `console.log`, an `import` without `from`, a statement
 * ending in `)` and a line longer than 120 UTF-16 units; the first and the last
 * rule apply to every extension, the middle three to the JS/TS family only.
 */
module BugDetector {
  import opened JsText
  import opened FunctionParser

  /** The five rules, in the order each line is checked. */
  datatype Rule = TodoComment | NoConsole | IncompleteImport | MissingSemicolon | MaxLen
  {
    /** The `ruleId` string of the reported error. */
    function RuleId(): string {
      match this
      case TodoComment => "todo-comment"
      case NoConsole => "no-console"
      case IncompleteImport => "incomplete-import"
      case MissingSemicolon => "missing-semicolon"
      case MaxLen => "max-len"
    }

    /** The `message` string of the reported error. */
    function Message(): string {
      match this
      case TodoComment => "Contains TODO/FIXME comment"
      case NoConsole => "Unexpected console.log statement"
      case IncompleteImport => "Possibly unused or incomplete import"
      case MissingSemicolon => "Missing semicolon at end of statement"
      case MaxLen => "Line exceeds 120 characters (consider breaking it)"
    }

    /** The position of the rule within a line's checks. */
    function Rank(): nat {
      match this
      case TodoComment => 0
      case NoConsole => 1
      case IncompleteImport => 2
      case MissingSemicolon => 3
      case MaxLen => 4
    }
  }

  /** `{line, column, message, ruleId}` as pushed into `errors`; the message and the
      rule id are both determined by the rule. */
  datatype Diagnostic = Diagnostic(line: nat, column: nat, rule: Rule)
  {
    function Message(): string { rule.Message() }
    function RuleId(): string { rule.RuleId() }
  }

  /** The longest line that passes `max-len`, in UTF-16 units. */
  const MaxLineLength: nat := 120

  predicate TodoFires(line: string) {
    Includes(line, "TODO") || Includes(line, "FIXME")
  }

  predicate ConsoleFires(line: string, ext: string) {
    IsJsFamily(ext) && Includes(line, "console.log")
  }

  predicate ImportFires(line: string, ext: string) {
    IsJsFamily(ext) && StartsWith(line, "import") && !Includes(line, "from")
  }

  /** As written: the trimmed line ends with `)` and does not end with `);`. */
  predicate SemicolonFires(line: string, ext: string) {
    IsJsFamily(ext) && EndsWith(Trim(line), ")") && !EndsWith(Trim(line), ");")
  }

  predicate MaxLenFires(line: string) {
    Utf16Length(line) > MaxLineLength
  }

  /** `line.indexOf("console.log")` in UTF-16 units. */
  function ConsoleColumn(line: string): nat
    requires Includes(line, "console.log")
  {
    Utf16Length(line[..IndexOf(line, "console.log")])
  }

  // The error (if any) each rule pushes for line number `n`.

  function TodoPart(line: string, n: nat): seq<Diagnostic> {
    if TodoFires(line) then [Diagnostic(n, 0, TodoComment)] else []
  }

  function ConsolePart(line: string, n: nat, ext: string): seq<Diagnostic> {
    if ConsoleFires(line, ext) then [Diagnostic(n, ConsoleColumn(line), NoConsole)] else []
  }

  function ImportPart(line: string, n: nat, ext: string): seq<Diagnostic> {
    if ImportFires(line, ext) then [Diagnostic(n, 0, IncompleteImport)] else []
  }

  function SemicolonPart(line: string, n: nat, ext: string): seq<Diagnostic> {
    if SemicolonFires(line, ext) then [Diagnostic(n, Utf16Length(line), MissingSemicolon)] else []
  }

  function MaxLenPart(line: string, n: nat): seq<Diagnostic> {
    if MaxLenFires(line) then [Diagnostic(n, MaxLineLength, MaxLen)] else []
  }

  /** What one iteration of `lines.forEach` pushes for line number `n`. */
  function LineDiagnostics(line: string, n: nat, ext: string): seq<Diagnostic> {
    TodoPart(line, n) + ConsolePart(line, n, ext) + ImportPart(line, n, ext)
    + SemicolonPart(line, n, ext) + MaxLenPart(line, n)
  }

  /** The diagnostics of `lines`, line `k` (from 1) checked k-th. */
  function Diagnostics(lines: seq<string>, ext: string): seq<Diagnostic> {
    if lines == [] then []
    else Diagnostics(lines[..|lines| - 1], ext) + LineDiagnostics(lines[|lines| - 1], |lines|, ext)
  }

  /** `detectBugs` on the file text `content`. */
  method DetectBugs(content: string, ext: string) returns (errors: seq<Diagnostic>)
    ensures errors == Diagnostics(Split(content, '\n'), ext)
  {
    var lines := Split(content, '\n');
    errors := [];
    for index := 0 to |lines|
      invariant errors == Diagnostics(lines[..index], ext)
    {
      DiagnosticsStep(lines, index, ext);
      var found := CheckLine(lines[index], index + 1, ext);
      errors := errors + found;
    }
    assert lines[..|lines|] == lines;
  }

  /** One more line extends the diagnostics by that line's. */
  lemma DiagnosticsStep(lines: seq<string>, index: nat, ext: string)
    requires index < |lines|
    ensures Diagnostics(lines[..index + 1], ext) == Diagnostics(lines[..index], ext) + LineDiagnostics(lines[index], index + 1, ext)
  {
    assert lines[..index + 1][..index] == lines[..index];
  }

  /** The body of the `forEach` callback: each of the five rule tests yields at
      most one error, and they are pushed in rule order. */
  method CheckLine(line: string, lineNum: nat, ext: string) returns (found: seq<Diagnostic>)
    ensures found == LineDiagnostics(line, lineNum, ext)
  {
    var todo, console, imports, semicolon, long: seq<Diagnostic> := [], [], [], [], [];
    if TodoFires(line) {
      todo := [Diagnostic(lineNum, 0, TodoComment)];
    }
    if ConsoleFires(line, ext) {
      console := [Diagnostic(lineNum, ConsoleColumn(line), NoConsole)];
    }
    if ImportFires(line, ext) {
      imports := [Diagnostic(lineNum, 0, IncompleteImport)];
    }
    if SemicolonFires(line, ext) {
      semicolon := [Diagnostic(lineNum, Utf16Length(line), MissingSemicolon)];
    }
    if MaxLenFires(line) {
      long := [Diagnostic(lineNum, MaxLineLength, MaxLen)];
    }
    found := todo + console + imports + semicolon + long;
  }

  // ---------------------------------------------------------------------------
  // Properties

  predicate Before(a: Diagnostic, b: Diagnostic) {
    a.line < b.line || (a.line == b.line && a.rule.Rank() < b.rule.Rank())
  }

  /** Strictly ordered by line, then by the fixed rule order. */
  predicate Ordered(ds: seq<Diagnostic>) {
    forall i, j :: 0 <= i < j < |ds| ==> Before(ds[i], ds[j])
  }

  predicate HasRule(ds: seq<Diagnostic>, r: Rule) {
    exists d :: d in ds && d.rule == r
  }

  /** Two ordered lists, every element of the first before every element of the
      second, concatenate to an ordered list. */
  lemma OrderedAppend(a: seq<Diagnostic>, b: seq<Diagnostic>)
    requires Ordered(a) && Ordered(b)
    requires forall x, y :: x in a && y in b ==> Before(x, y)
    ensures Ordered(a + b)
  {
    var ds := a + b;
    forall i, j | 0 <= i < j < |ds| ensures Before(ds[i], ds[j]) {
      if j < |a| {
        assert ds[i] == a[i] && ds[j] == a[j];
      } else if i < |a| {
        assert ds[i] in a && ds[j] in b;
      } else {
        assert ds[i] == b[i - |a|] && ds[j] == b[j - |a|];
      }
    }
  }

  /** All of `ds` is on line `n` with a rule ranked below `bound`. */
  predicate OnLineBelow(ds: seq<Diagnostic>, n: nat, bound: nat) {
    forall d :: d in ds ==> d.line == n && d.rule.Rank() < bound
  }

  /** Adding the (at most one) error of a later rule keeps a line's errors ordered. */
  lemma OrderedPush(a: seq<Diagnostic>, part: seq<Diagnostic>, n: nat, r: Rule)
    requires Ordered(a) && OnLineBelow(a, n, r.Rank())
    requires |part| <= 1 && forall d :: d in part ==> d.line == n && d.rule == r
    ensures Ordered(a + part) && OnLineBelow(a + part, n, r.Rank() + 1)
  {
    OrderedAppend(a, part);
  }

  /** One line's errors all carry its number, come in rule order and number at most
      five. */
  lemma LineDiagnosticsOrdered(line: string, n: nat, ext: string)
    ensures Ordered(LineDiagnostics(line, n, ext))
    ensures forall d :: d in LineDiagnostics(line, n, ext) ==> d.line == n
    ensures |LineDiagnostics(line, n, ext)| <= 5
  {
    var t, c, i, s, m := TodoPart(line, n), ConsolePart(line, n, ext), ImportPart(line, n, ext),
                         SemicolonPart(line, n, ext), MaxLenPart(line, n);
    OrderedPush([], t, n, TodoComment);
    assert [] + t == t;
    OrderedPush(t, c, n, NoConsole);
    OrderedPush(t + c, i, n, IncompleteImport);
    OrderedPush(t + c + i, s, n, MissingSemicolon);
    OrderedPush(t + c + i + s, m, n, MaxLen);
  }

  /** Every error names an existing line (numbered from 1), and the list is ordered
      by line and then by rule; so no rule is reported twice for a line. */
  lemma {:induction false} DiagnosticsOrdered(lines: seq<string>, ext: string)
    ensures forall d :: d in Diagnostics(lines, ext) ==> 1 <= d.line <= |lines|
    ensures Ordered(Diagnostics(lines, ext))
  {
    if lines != [] {
      var init := lines[..|lines| - 1];
      DiagnosticsOrdered(init, ext);
      LineDiagnosticsOrdered(lines[|lines| - 1], |lines|, ext);
      OrderedAppend(Diagnostics(init, ext), LineDiagnostics(lines[|lines| - 1], |lines|, ext));
    }
  }

  /** Outside the JS/TS family only `todo-comment` and `max-len` are reported. */
  lemma {:induction false} NonJsRules(lines: seq<string>, ext: string)
    requires !IsJsFamily(ext)
    ensures forall d :: d in Diagnostics(lines, ext) ==> d.rule == TodoComment || d.rule == MaxLen
  {
    if lines != [] {
      NonJsRules(lines[..|lines| - 1], ext);
    }
  }

  /** A trimmed line that ends with `)` never ends with `);`, so the second test of
      the missing-semicolon rule never changes its outcome. */
  lemma SemicolonTestRedundant(line: string, ext: string)
    ensures SemicolonFires(line, ext) <==> IsJsFamily(ext) && EndsWith(Trim(line), ")")
  {
  }

  /** An element of a line's errors is an element of one of its five parts. */
  lemma InLine(d: Diagnostic, line: string, n: nat, ext: string)
    ensures d in LineDiagnostics(line, n, ext) <==>
      d in TodoPart(line, n) || d in ConsolePart(line, n, ext) || d in ImportPart(line, n, ext)
      || d in SemicolonPart(line, n, ext) || d in MaxLenPart(line, n)
  {
  }

  /** The part of a line's errors that rule `r` contributes. */
  function PartOf(line: string, n: nat, ext: string, r: Rule): seq<Diagnostic> {
    match r
    case TodoComment => TodoPart(line, n)
    case NoConsole => ConsolePart(line, n, ext)
    case IncompleteImport => ImportPart(line, n, ext)
    case MissingSemicolon => SemicolonPart(line, n, ext)
    case MaxLen => MaxLenPart(line, n)
  }

  /** Rule `r` is reported for a line exactly when its own part is non-empty. */
  lemma HasRuleOfPart(line: string, n: nat, ext: string, r: Rule)
    ensures HasRule(LineDiagnostics(line, n, ext), r) <==> PartOf(line, n, ext, r) != []
  {
    var part := PartOf(line, n, ext, r);
    if part != [] {
      InLine(part[0], line, n, ext);
    }
    if HasRule(LineDiagnostics(line, n, ext), r) {
      var d :| d in LineDiagnostics(line, n, ext) && d.rule == r;
      InLine(d, line, n, ext);
    }
  }

  /** Which rules are reported for a line: TODO or FIXME anywhere; in the JS/TS
      family a `console.log` anywhere, a line starting with `import` that lacks
      `from`, a trimmed line ending in `)`; and a line over 120 UTF-16 units. */
  lemma LineRules(line: string, n: nat, ext: string)
    ensures HasRule(LineDiagnostics(line, n, ext), TodoComment) <==> Includes(line, "TODO") || Includes(line, "FIXME")
    ensures HasRule(LineDiagnostics(line, n, ext), NoConsole) <==> IsJsFamily(ext) && Includes(line, "console.log")
    ensures HasRule(LineDiagnostics(line, n, ext), IncompleteImport)
            <==> IsJsFamily(ext) && StartsWith(line, "import") && !Includes(line, "from")
    ensures HasRule(LineDiagnostics(line, n, ext), MissingSemicolon) <==> IsJsFamily(ext) && EndsWith(Trim(line), ")")
    ensures HasRule(LineDiagnostics(line, n, ext), MaxLen) <==> Utf16Length(line) > 120
  {
    SemicolonTestRedundant(line, ext);
    HasRuleOfPart(line, n, ext, TodoComment);
    HasRuleOfPart(line, n, ext, NoConsole);
    HasRuleOfPart(line, n, ext, IncompleteImport);
    HasRuleOfPart(line, n, ext, MissingSemicolon);
    HasRuleOfPart(line, n, ext, MaxLen);
  }

  /** The column each rule reports: 0 for TODO and import, the UTF-16 offset of the
      first `console.log`, the UTF-16 length of the line for a missing semicolon,
      and 120 for an over-long line; message and rule id follow the rule. */
  lemma LineColumns(line: string, n: nat, ext: string)
    ensures forall d :: d in LineDiagnostics(line, n, ext) ==>
      && (d.rule == TodoComment ==> d.column == 0)
      && (d.rule == NoConsole ==>
            exists k :: OccursAt(line, "console.log", k) && d.column == Utf16Length(line[..k])
                     && forall j :: 0 <= j < k ==> !OccursAt(line, "console.log", j))
      && (d.rule == IncompleteImport ==> d.column == 0)
      && (d.rule == MissingSemicolon ==> d.column == Utf16Length(line))
      && (d.rule == MaxLen ==> d.column == 120)
  {
    forall d | d in LineDiagnostics(line, n, ext) ensures d.rule == NoConsole ==>
      exists k :: OccursAt(line, "console.log", k) && d.column == Utf16Length(line[..k])
               && forall j :: 0 <= j < k ==> !OccursAt(line, "console.log", j)
    {
      InLine(d, line, n, ext);
      if d.rule == NoConsole {
        ConsoleAtFirst(line, n, ext, d);
      }
    }
    forall d | d in LineDiagnostics(line, n, ext) ensures d.rule != NoConsole ==>
      (d.rule == TodoComment || d.rule == IncompleteImport ==> d.column == 0)
      && (d.rule == MissingSemicolon ==> d.column == Utf16Length(line))
      && (d.rule == MaxLen ==> d.column == 120)
    {
      InLine(d, line, n, ext);
    }
  }

  lemma ConsoleAtFirst(line: string, n: nat, ext: string, d: Diagnostic)
    requires d in ConsolePart(line, n, ext)
    ensures exists k :: OccursAt(line, "console.log", k) && d.column == Utf16Length(line[..k])
                     && forall j :: 0 <= j < k ==> !OccursAt(line, "console.log", j)
  {
    var k := IndexOf(line, "console.log");
    assert d.column == Utf16Length(line[..k]);
  }

  /** The errors that carry line number `n` are exactly those of line `n`. */
  lemma {:induction false} DiagnosticsOfLine(lines: seq<string>, ext: string, n: nat)
    requires 1 <= n <= |lines|
    ensures forall d :: d in Diagnostics(lines, ext) && d.line == n <==> d in LineDiagnostics(lines[n - 1], n, ext)
  {
    var init := lines[..|lines| - 1];
    DiagnosticsOrdered(init, ext);
    LineDiagnosticsOrdered(lines[|lines| - 1], |lines|, ext);
    if n < |lines| {
      DiagnosticsOfLine(init, ext, n);
      assert init[n - 1] == lines[n - 1];
      LineDiagnosticsOrdered(lines[n - 1], n, ext);
    }
  }

  /** At most five errors per line. */
  lemma {:induction false} DiagnosticsBound(lines: seq<string>, ext: string)
    ensures |Diagnostics(lines, ext)| <= 5 * |lines|
  {
    if lines != [] {
      DiagnosticsBound(lines[..|lines| - 1], ext);
      LineDiagnosticsOrdered(lines[|lines| - 1], |lines|, ext);
    }
  }
}
