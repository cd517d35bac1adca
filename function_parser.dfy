/**
 * `parseFunctions(filePath, ext)` of backend/index.js (and its textually identical
 * copy in backend/server.js): split the file text on "\n" and collect "function
 * names" line by line with a per-language-family rule chosen by the extension.
 * The file is passed in as its text instead of being read from disk.
 */
module FunctionParser {
  import opened Options
  import opened JsText
  import opened Patterns

  /** `[".js", ".ts", ".jsx", ".tsx"].includes(ext)` */
  predicate IsJsFamily(ext: string) {
    ext == ".js" || ext == ".ts" || ext == ".jsx" || ext == ".tsx"
  }

  /** `[".c", ".cpp"].includes(ext)` */
  predicate IsCFamily(ext: string) {
    ext == ".c" || ext == ".cpp"
  }

  /** The line rule `parseFunctions` applies: its `if` chain tests the JS/TS
      extensions, then ".py", then ".java", then ".c"/".cpp". */
  datatype Family = Js | Python | Java | C | Unsupported

  function FamilyOf(ext: string): (family: Family)
    ensures family == Js <==> IsJsFamily(ext)
    ensures family == Python <==> ext == ".py"
    ensures family == Java <==> ext == ".java"
    ensures family == C <==> IsCFamily(ext)
  {
    if IsJsFamily(ext) then Js
    else if ext == ".py" then Python
    else if ext == ".java" then Java
    else if IsCFamily(ext) then C
    else Unsupported
  }

  /** `if (match) functions.push(match[k])` */
  function Captured(m: Option<string>): (r: seq<string>)
    ensures |r| <= 1
  {
    if m.Some? then [m.value] else []
  }

  /** A trimmed line starting with "def " splits on " " into at least two words, the
      first being "def" and the second what follows up to the next space. */
  lemma {:induction false} DefWords(t: string)
    requires StartsWith(t, "def ")
    ensures |Split(t, ' ')| >= 2
    ensures Split(t, ' ')[1] == Split(t[4..], ' ')[0]
  {
    var first := Split(t, ' ')[0];
    SplitFirst(t, ' ');
    SplitPieces(t, ' ');
    assert t[..4] == "def ";
    assert t[0] == 'd' && t[1] == 'e' && t[2] == 'f' && t[3] == ' ';
    PrefixChar(t, first, 3);
    assert |first| == 3;
    SplitSecond(t, ' ');
  }

  /** `line.split(" ")[1].split("(")[0]` */
  function PythonName(t: string): string
    requires StartsWith(t, "def ")
  {
    DefWords(t);
    Split(Split(t, ' ')[1], '(')[0]
  }

  /** The Python name is the text after "def " up to the first space or `(`. */
  lemma PythonNameShape(t: string)
    requires StartsWith(t, "def ")
    ensures StartsWith(t[4..], PythonName(t))
    ensures forall k :: 0 <= k < |PythonName(t)| ==> PythonName(t)[k] != ' ' && PythonName(t)[k] != '('
  {
    DefWords(t);
    var word := Split(t[4..], ' ')[0];
    var name := Split(word, '(')[0];
    SplitFirst(t[4..], ' ');
    SplitPieces(t[4..], ' ');
    SplitFirst(word, '(');
    SplitPieces(word, '(');
    assert forall k :: 0 <= k < |name| ==> name[k] == word[k];
  }

  /** The names one line contributes, in the order they are pushed. */
  function LineNames(line: string, family: Family): seq<string> {
    match family
    case Js =>
      var t := Trim(line);
      Captured(FirstMatch(FunctionDecl, t)) + Captured(FirstMatch(ArrowConst, t))
    case Python =>
      var t := Trim(line);
      if StartsWith(t, "def ") then [PythonName(t)] else []
    case Java => Captured(FirstMatch(JavaMethod, line))
    case C => Captured(FirstMatch(CFunction, line))
    case Unsupported => []
  }

  /** The names of the lines, in line order then push order. */
  function Names(lines: seq<string>, family: Family): seq<string> {
    if lines == [] then [] else Names(lines[..|lines| - 1], family) + LineNames(lines[|lines| - 1], family)
  }

  /** `parseFunctions` on the file text `content`: the extension picks one of four
      line loops, and any other extension gives no names. */
  method ParseFunctions(content: string, ext: string) returns (functions: seq<string>)
    ensures functions == Names(Split(content, '\n'), FamilyOf(ext))
  {
    var lines := Split(content, '\n');
    if IsJsFamily(ext) {
      functions := ParseJsLines(lines);
    } else if ext == ".py" {
      functions := ParsePythonLines(lines);
    } else if ext == ".java" {
      functions := ParseRegexLines(lines, Java, JavaMethod);
    } else if IsCFamily(ext) {
      functions := ParseRegexLines(lines, C, CFunction);
    } else {
      functions := [];
      NamesBound(lines, Unsupported);
    }
  }

  /** The JS/TS loop over the lines. */
  method ParseJsLines(lines: seq<string>) returns (functions: seq<string>)
    ensures functions == Names(lines, Js)
  {
    functions := [];
    for i := 0 to |lines|
      invariant functions == Names(lines[..i], Js)
    {
      NamesStep(lines, i, Js);
      var found := JsLine(lines[i]);
      functions := functions + found;
    }
    assert lines[..|lines|] == lines;
  }

  /** One JS/TS line, trimmed, may push a `function NAME(` capture and then a
      `const NAME = (...) =>` capture. */
  method JsLine(line: string) returns (found: seq<string>)
    ensures found == LineNames(line, Js)
  {
    var t := Trim(line);
    var declared := FirstMatch(FunctionDecl, t);
    var arrow := FirstMatch(ArrowConst, t);
    found := Captured(declared) + Captured(arrow);
  }

  /** The Python loop: a trimmed line starting with "def " pushes its name. */
  method ParsePythonLines(lines: seq<string>) returns (functions: seq<string>)
    ensures functions == Names(lines, Python)
  {
    functions := [];
    for i := 0 to |lines|
      invariant functions == Names(lines[..i], Python)
    {
      NamesStep(lines, i, Python);
      var line := Trim(lines[i]);
      if StartsWith(line, "def ") {
        functions := functions + [PythonName(line)];
      }
    }
    assert lines[..|lines|] == lines;
  }

  /** The Java and C/C++ loops: an untrimmed line pushes capture group 2 of its
      family's pattern when that matches. */
  method ParseRegexLines(lines: seq<string>, family: Family, p: Pattern) returns (functions: seq<string>)
    requires (family == Java && p == JavaMethod) || (family == C && p == CFunction)
    ensures functions == Names(lines, family)
  {
    functions := [];
    for i := 0 to |lines|
      invariant functions == Names(lines[..i], family)
    {
      NamesStep(lines, i, family);
      var m := FirstMatch(p, lines[i]);
      if m.Some? { functions := functions + [m.value]; }
    }
    assert lines[..|lines|] == lines;
  }

  /** One more line extends the names by that line's names. */
  lemma NamesStep(lines: seq<string>, i: nat, family: Family)
    requires i < |lines|
    ensures Names(lines[..i + 1], family) == Names(lines[..i], family) + LineNames(lines[i], family)
  {
    assert lines[..i + 1][..i] == lines[..i];
  }

  // ---------------------------------------------------------------------------
  // Properties

  /** The most names one line can contribute in a family. */
  function PerLineLimit(family: Family): nat {
    match family
    case Js => 2
    case Python | Java | C => 1
    case Unsupported => 0
  }

  /** What a single name looks like: an identifier taken from the (trimmed) line for
      the regex families, a word with no space and no `(` for Python. */
  ghost predicate NameFromLine(n: string, line: string, family: Family) {
    match family
    case Python =>
      StartsWith(Trim(line), "def ") && StartsWith(Trim(line)[4..], n)
      && forall k :: 0 <= k < |n| ==> n[k] != ' ' && n[k] != '('
    case Js => IsIdentifierIn(n, Trim(line))
    case _ => IsIdentifierIn(n, line)
  }

  lemma CapturedIdentifier(p: Pattern, s: string)
    ensures forall n :: n in Captured(FirstMatch(p, s)) ==> IsIdentifierIn(n, s)
  {
    FirstMatchSpec(p, s);
  }

  /** Each line contributes at most its family's limit, and every name it
      contributes is well formed and comes from that line. */
  lemma LineNamesSpec(line: string, family: Family)
    ensures |LineNames(line, family)| <= PerLineLimit(family)
    ensures forall n :: n in LineNames(line, family) ==> NameFromLine(n, line, family)
  {
    match family
    case Js =>
      CapturedIdentifier(FunctionDecl, Trim(line));
      CapturedIdentifier(ArrowConst, Trim(line));
    case Python =>
      if StartsWith(Trim(line), "def ") { PythonNameShape(Trim(line)); }
    case Java =>
      CapturedIdentifier(JavaMethod, line);
    case C =>
      CapturedIdentifier(CFunction, line);
    case Unsupported =>
  }

  /** The name list is bounded by the limit times the number of lines; outside
      the four families it is empty. */
  lemma {:induction false} NamesBound(lines: seq<string>, family: Family)
    ensures |Names(lines, family)| <= PerLineLimit(family) * |lines|
    ensures PerLineLimit(family) == 0 ==> Names(lines, family) == []
  {
    if lines != [] {
      var l := PerLineLimit(family);
      NamesBound(lines[..|lines| - 1], family);
      LineNamesSpec(lines[|lines| - 1], family);
      assert l * |lines| == l * (|lines| - 1) + l;
    }
  }

  /** Every name comes from one of the lines and has that family's shape. */
  lemma {:induction false} NamesFromLines(lines: seq<string>, family: Family)
    ensures forall n :: n in Names(lines, family) ==> exists k :: 0 <= k < |lines| && NameFromLine(n, lines[k], family)
  {
    if lines != [] {
      var init := lines[..|lines| - 1];
      NamesFromLines(init, family);
      LineNamesSpec(lines[|lines| - 1], family);
      forall n | n in Names(lines, family)
        ensures exists k :: 0 <= k < |lines| && NameFromLine(n, lines[k], family)
      {
        if n in Names(init, family) {
          var k :| 0 <= k < |init| && NameFromLine(n, init[k], family);
          assert lines[k] == init[k];
        } else {
          assert n in LineNames(lines[|lines| - 1], family);
        }
      }
    }
  }

  /** The lines whose trimmed text starts with "def ". */
  function DefLineCount(lines: seq<string>): nat {
    if lines == [] then 0
    else DefLineCount(lines[..|lines| - 1]) + (if StartsWith(Trim(lines[|lines| - 1]), "def ") then 1 else 0)
  }

  /** For Python exactly one name per "def " line. */
  lemma {:induction false} PythonNameCount(lines: seq<string>)
    ensures |Names(lines, Python)| == DefLineCount(lines)
  {
    if lines != [] {
      PythonNameCount(lines[..|lines| - 1]);
    }
  }
}
