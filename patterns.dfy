/**
 * The four regular expressions the function parser applies to a line, matched the
 * way `String.prototype.match` (no `g` flag) does: the leftmost start position at
 * which the pattern matches wins, and the result is the capture group the parser
 * reads.
 *
 * At a fixed start position each pattern has at most one way to match: every
 * quantified class in it is followed by something the class cannot match (`\s+`
 * by `\w`, `\w+` by `\s` or `(` or `=`), so backtracking can never shorten a run
 * and still succeed. `MatchAt` therefore takes each run to its maximal end, and
 * `MatchAtExact` proves it agrees with the declarative reading of the pattern
 * (some split of the text into the pattern's pieces) for every capture.
 */
module Patterns {
  import opened Options
  import opened JsText

  datatype Pattern =
    | FunctionDecl  // /function\s+(\w+)\s*\(/            capture 1
    | ArrowConst    // /const\s+(\w+)\s*=\s*\(.*\)\s*=>/  capture 1
    | JavaMethod    // /(public|private|protected)?\s+\w+\s+(\w+)\s*\(/  capture 2
    | CFunction     // /(\w+)\s+(\w+)\s*\(.*\)\s*\{/      capture 2

  // ---------------------------------------------------------------------------
  // Declarative reading of the pieces

  /** `s[x..y]` is a (possibly empty) run of `\s`. */
  ghost predicate Spaces(s: string, x: int, y: int) {
    0 <= x <= y <= |s| && forall k :: x <= k < y ==> IsSpace(s[k])
  }

  /** `s[x..y]` is a non-empty run of `\w`. */
  ghost predicate Word(s: string, x: int, y: int) {
    0 <= x < y <= |s| && forall k :: x <= k < y ==> IsWordChar(s[k])
  }

  /** `s[x..y]` holds no line terminator, so `.*` can cover it. */
  ghost predicate Dots(s: string, x: int, y: int) {
    0 <= x <= y <= |s| && forall k :: x <= k < y ==> !IsLineTerminator(s[k])
  }

  /** `.*\)\s*` then `tail`, starting at `x`: the `)` is at `k`, `tail` at `m`. */
  ghost predicate TailParts(s: string, x: int, tail: string, k: int, m: int) {
    Dots(s, x, k) && k < |s| && s[k] == ')' && Spaces(s, k + 1, m) && OccursAt(s, tail, m)
  }

  /** `function\s+(\w+)\s*\(` at `i`, capture `s[b..c]`. */
  ghost predicate FunctionDeclParts(s: string, i: int, b: int, c: int, d: int) {
    OccursAt(s, "function", i) && Spaces(s, i + 8, b) && i + 8 < b
    && Word(s, b, c) && Spaces(s, c, d) && d < |s| && s[d] == '('
  }

  /** `const\s+(\w+)\s*=\s*\(` at `i`, capture `s[b..c]`, the `(` at `e`. */
  ghost predicate ArrowHeadParts(s: string, i: int, b: int, c: int, d: int, e: int) {
    OccursAt(s, "const", i) && Spaces(s, i + 5, b) && i + 5 < b
    && Word(s, b, c) && Spaces(s, c, d) && d < |s| && s[d] == '='
    && Spaces(s, d + 1, e) && e < |s| && s[e] == '('
  }

  /** `\s+\w+\s+(\w+)\s*\(` at `p`, capture `s[d..e]`. */
  ghost predicate JavaTailParts(s: string, p: int, b: int, c: int, d: int, e: int, f: int) {
    Spaces(s, p, b) && p < b && Word(s, b, c) && Spaces(s, c, d) && c < d
    && Word(s, d, e) && Spaces(s, e, f) && f < |s| && s[f] == '('
  }

  /** `(\w+)\s+(\w+)\s*\(` at `i`, capture `s[d..e]`, the `(` at `f`. */
  ghost predicate CHeadParts(s: string, i: int, c: int, d: int, e: int, f: int) {
    Word(s, i, c) && Spaces(s, c, d) && c < d && Word(s, d, e) && Spaces(s, e, f)
    && f < |s| && s[f] == '('
  }

  ghost predicate TailMatches(s: string, x: int, tail: string) {
    exists k, m :: TailParts(s, x, tail, k, m)
  }

  ghost predicate JavaTailMatches(s: string, p: int, name: string) {
    exists b, c, d, e, f :: JavaTailParts(s, p, b, c, d, e, f) && s[d..e] == name
  }

  /** `function\s+(\w+)\s*\(` matches at `i` with capture `name`. */
  ghost predicate FunctionDeclMatches(s: string, i: int, name: string) {
    exists b, c, d :: FunctionDeclParts(s, i, b, c, d) && s[b..c] == name
  }

  /** `const\s+(\w+)\s*=\s*\(.*\)\s*=>` matches at `i` with capture `name`. */
  ghost predicate ArrowConstMatches(s: string, i: int, name: string) {
    exists b, c, d, e :: ArrowHeadParts(s, i, b, c, d, e) && s[b..c] == name
                         && TailMatches(s, e + 1, "=>")
  }

  /** `(public|private|protected)?\s+\w+\s+(\w+)\s*\(` matches at `i` with
      capture `name`. */
  ghost predicate JavaMethodMatches(s: string, i: int, name: string) {
    (OccursAt(s, "public", i) && JavaTailMatches(s, i + 6, name))
    || (OccursAt(s, "private", i) && JavaTailMatches(s, i + 7, name))
    || (OccursAt(s, "protected", i) && JavaTailMatches(s, i + 9, name))
    || JavaTailMatches(s, i, name)
  }

  /** `(\w+)\s+(\w+)\s*\(.*\)\s*\{` matches at `i` with capture `name`. */
  ghost predicate CFunctionMatches(s: string, i: int, name: string) {
    exists c, d, e, f :: CHeadParts(s, i, c, d, e, f) && s[d..e] == name
                         && TailMatches(s, f + 1, "{")
  }

  /** Pattern `p` matches the text at start position `i` with capture `name`. */
  ghost predicate MatchesWith(p: Pattern, s: string, i: int, name: string) {
    match p
    case FunctionDecl => FunctionDeclMatches(s, i, name)
    case ArrowConst => ArrowConstMatches(s, i, name)
    case JavaMethod => JavaMethodMatches(s, i, name)
    case CFunction => CFunctionMatches(s, i, name)
  }

  // ---------------------------------------------------------------------------
  // The matcher

  /** The end of the run of `\s` that starts at `i`. */
  function SkipSpace(s: string, i: nat): (j: nat)
    requires i <= |s|
    ensures Spaces(s, i, j) && (j == |s| || !IsSpace(s[j]))
    decreases |s| - i
  {
    if i < |s| && IsSpace(s[i]) then SkipSpace(s, i + 1) else i
  }

  /** The end of the run of `\w` that starts at `i` (`i` itself when there is none). */
  function SkipWord(s: string, i: nat): (j: nat)
    requires i <= |s|
    ensures i <= j <= |s| && (i < j ==> Word(s, i, j)) && (j == |s| || !IsWordChar(s[j]))
    decreases |s| - i
  {
    if i < |s| && IsWordChar(s[i]) then SkipWord(s, i + 1) else i
  }

  /** `.*\)\s*` followed by `tail`, anchored at `x`: some `)` reachable without
      crossing a line terminator is followed by spaces and then `tail`. */
  predicate CloseParenThen(s: string, x: nat, tail: string)
    requires x <= |s|
    decreases |s| - x
  {
    x < |s| && (
      (s[x] == ')' && OccursAt(s, tail, SkipSpace(s, x + 1)))
      || (!IsLineTerminator(s[x]) && CloseParenThen(s, x + 1, tail)))
  }

  /** `\s+\w+\s+(\w+)\s*\(` at `p`. */
  function JavaTail(s: string, p: nat): Option<string>
    requires p <= |s|
  {
    var b := SkipSpace(s, p);
    var c := SkipWord(s, b);
    var d := SkipSpace(s, c);
    var e := SkipWord(s, d);
    var f := SkipSpace(s, e);
    if p < b && b < c && c < d && d < e && f < |s| && s[f] == '(' then Some(s[d..e]) else None
  }

  /** `function\s+(\w+)\s*\(` at `i`. */
  function FunctionDeclAt(s: string, i: nat): Option<string>
    requires i <= |s|
  {
    if !OccursAt(s, "function", i) then None
    else
      var b := SkipSpace(s, i + 8);
      var c := SkipWord(s, b);
      var d := SkipSpace(s, c);
      if i + 8 < b && b < c && d < |s| && s[d] == '(' then Some(s[b..c]) else None
  }

  /** `const\s+(\w+)\s*=\s*\(.*\)\s*=>` at `i`. */
  function ArrowConstAt(s: string, i: nat): Option<string>
    requires i <= |s|
  {
    if !OccursAt(s, "const", i) then None
    else
      var b := SkipSpace(s, i + 5);
      var c := SkipWord(s, b);
      var d := SkipSpace(s, c);
      if !(i + 5 < b && b < c && d < |s| && s[d] == '=') then None
      else
        var e := SkipSpace(s, d + 1);
        if e < |s| && s[e] == '(' && CloseParenThen(s, e + 1, "=>") then Some(s[b..c]) else None
  }

  /** `(public|private|protected)?\s+\w+\s+(\w+)\s*\(` at `i`: the optional
      group tries its alternatives in order, then is skipped. */
  function JavaMethodAt(s: string, i: nat): Option<string>
    requires i <= |s|
  {
    var viaKeyword :=
      if OccursAt(s, "public", i) then JavaTail(s, i + 6)
      else if OccursAt(s, "private", i) then JavaTail(s, i + 7)
      else if OccursAt(s, "protected", i) then JavaTail(s, i + 9)
      else None;
    if viaKeyword.Some? then viaKeyword else JavaTail(s, i)
  }

  /** `(\w+)\s+(\w+)\s*\(.*\)\s*\{` at `i`. */
  function CFunctionAt(s: string, i: nat): Option<string>
    requires i <= |s|
  {
    var c := SkipWord(s, i);
    var d := SkipSpace(s, c);
    var e := SkipWord(s, d);
    var f := SkipSpace(s, e);
    if i < c && c < d && d < e && f < |s| && s[f] == '(' && CloseParenThen(s, f + 1, "{")
    then Some(s[d..e]) else None
  }

  /** The capture of pattern `p` when it matches at position `i`. */
  function MatchAt(p: Pattern, s: string, i: nat): Option<string>
    requires i <= |s|
  {
    match p
    case FunctionDecl => FunctionDeclAt(s, i)
    case ArrowConst => ArrowConstAt(s, i)
    case JavaMethod => JavaMethodAt(s, i)
    case CFunction => CFunctionAt(s, i)
  }

  /** The outcome of the pattern at every start position of `s`, `0` to `|s|`. */
  function Attempts(p: Pattern, s: string): seq<Option<string>> {
    seq(|s| + 1, (j: int) requires 0 <= j <= |s| => MatchAt(p, s, j))
  }

  /** The first outcome at or after `i` that is a match: the search `match` does,
      trying start positions from left to right. */
  function FirstSome(ms: seq<Option<string>>, i: nat): Option<string>
    requires i <= |ms|
    decreases |ms| - i
  {
    if i == |ms| then None
    else if ms[i].Some? then ms[i]
    else FirstSome(ms, i + 1)
  }

  /** The scan finds nothing exactly when no position matches, and otherwise
      reports the match at the first position that matches. */
  lemma {:induction false} FirstSomeSpec(ms: seq<Option<string>>, i: nat)
    requires i <= |ms|
    ensures var r := FirstSome(ms, i);
      && (r.None? <==> forall j :: i <= j < |ms| ==> ms[j].None?)
      && (r.Some? ==> exists j :: i <= j < |ms| && ms[j] == r && forall k :: i <= k < j ==> ms[k].None?)
    decreases |ms| - i
  {
    if i < |ms| && ms[i].None? {
      FirstSomeSpec(ms, i + 1);
      var r := FirstSome(ms, i + 1);
      if r.Some? {
        var j :| i + 1 <= j < |ms| && ms[j] == r && forall k :: i + 1 <= k < j ==> ms[k].None?;
        assert forall k :: i <= k < j ==> ms[k].None?;
      }
    }
  }

  /** `line.match(re)`: the capture group the parser reads, or no match. */
  function FirstMatch(p: Pattern, s: string): Option<string> {
    FirstSome(Attempts(p, s), 0)
  }

  // ---------------------------------------------------------------------------
  // The matcher agrees with the declarative reading

  lemma SpacesEnd(s: string, x: nat, y: int)
    requires x <= |s| && Spaces(s, x, y) && (y == |s| || !IsSpace(s[y]))
    ensures SkipSpace(s, x) == y
  {
  }

  lemma WordEnd(s: string, x: nat, y: int)
    requires x <= |s| && Word(s, x, y) && (y == |s| || !IsWordChar(s[y]))
    ensures SkipWord(s, x) == y
  {
  }

  /** A run of spaces that a word character or a `(`, `=` or `{` follows is maximal. */
  lemma SpacesBeforeNonSpace(s: string, x: nat, y: int)
    requires x <= |s| && Spaces(s, x, y) && y < |s|
    requires IsWordChar(s[y]) || s[y] == '(' || s[y] == '=' || s[y] == '{'
    ensures SkipSpace(s, x) == y
  {
    SpacesEnd(s, x, y);
  }

  lemma CloseParenThenExact(s: string, x: nat, tail: string)
    requires x <= |s|
    requires |tail| > 0 && !IsSpace(tail[0])
    ensures CloseParenThen(s, x, tail) <==> TailMatches(s, x, tail)
  {
    if CloseParenThen(s, x, tail) {
      CloseParenThenSound(s, x, tail);
    }
    if TailMatches(s, x, tail) {
      var k, m :| TailParts(s, x, tail, k, m);
      CloseParenThenComplete(s, x, tail, k, m);
    }
  }

  lemma {:induction false} CloseParenThenSound(s: string, x: nat, tail: string)
    requires x <= |s| && CloseParenThen(s, x, tail)
    ensures TailMatches(s, x, tail)
    decreases |s| - x
  {
    if s[x] == ')' && OccursAt(s, tail, SkipSpace(s, x + 1)) {
      assert TailParts(s, x, tail, x, SkipSpace(s, x + 1));
    } else {
      CloseParenThenSound(s, x + 1, tail);
      var k, m :| TailParts(s, x + 1, tail, k, m);
      assert TailParts(s, x, tail, k, m);
    }
  }

  lemma {:induction false} CloseParenThenComplete(s: string, x: nat, tail: string, k: int, m: int)
    requires x <= |s| && TailParts(s, x, tail, k, m)
    requires |tail| > 0 && !IsSpace(tail[0])
    ensures CloseParenThen(s, x, tail)
    decreases |s| - x
  {
    if k > x {
      assert TailParts(s, x + 1, tail, k, m);
      CloseParenThenComplete(s, x + 1, tail, k, m);
    } else {
      assert s[m] == tail[0];
      SpacesEnd(s, k + 1, m);
    }
  }

  lemma JavaTailExact(s: string, p: nat, name: string)
    requires p <= |s|
    ensures JavaTail(s, p) == Some(name) <==> JavaTailMatches(s, p, name)
  {
    if JavaTail(s, p) == Some(name) {
      var b := SkipSpace(s, p);
      var c := SkipWord(s, b);
      var d := SkipSpace(s, c);
      var e := SkipWord(s, d);
      var f := SkipSpace(s, e);
      assert JavaTailParts(s, p, b, c, d, e, f);
    }
    if JavaTailMatches(s, p, name) {
      var b, c, d, e, f :| JavaTailParts(s, p, b, c, d, e, f) && s[d..e] == name;
      JavaTailComplete(s, p, b, c, d, e, f);
    }
  }

  /** The pieces of a Java tail are where the matcher's maximal runs end. */
  lemma JavaTailComplete(s: string, p: nat, b: int, c: int, d: int, e: int, f: int)
    requires p <= |s| && JavaTailParts(s, p, b, c, d, e, f)
    ensures JavaTail(s, p) == Some(s[d..e])
  {
    SpacesBeforeNonSpace(s, p, b);
    WordEnd(s, b, c);
    SpacesBeforeNonSpace(s, c, d);
    WordEnd(s, d, e);
    SpacesBeforeNonSpace(s, e, f);
  }

  lemma FunctionDeclExact(s: string, i: nat, name: string)
    requires i <= |s|
    ensures FunctionDeclAt(s, i) == Some(name) <==> FunctionDeclMatches(s, i, name)
  {
    if FunctionDeclAt(s, i) == Some(name) {
      var b := SkipSpace(s, i + 8);
      var c := SkipWord(s, b);
      assert FunctionDeclParts(s, i, b, c, SkipSpace(s, c));
    }
    if FunctionDeclMatches(s, i, name) {
      var b, c, d :| FunctionDeclParts(s, i, b, c, d) && s[b..c] == name;
      FunctionDeclComplete(s, i, b, c, d);
    }
  }

  /** The pieces of a `function` declaration are where the matcher's maximal runs
      end. */
  lemma FunctionDeclComplete(s: string, i: nat, b: int, c: int, d: int)
    requires i <= |s| && FunctionDeclParts(s, i, b, c, d)
    ensures FunctionDeclAt(s, i) == Some(s[b..c])
  {
    SpacesBeforeNonSpace(s, i + 8, b);
    WordEnd(s, b, c);
    SpacesBeforeNonSpace(s, c, d);
  }

  lemma ArrowConstSound(s: string, i: nat, name: string)
    requires i <= |s| && ArrowConstAt(s, i) == Some(name)
    ensures ArrowConstMatches(s, i, name)
  {
    var b := SkipSpace(s, i + 5);
    var c := SkipWord(s, b);
    var d := SkipSpace(s, c);
    var e := SkipSpace(s, d + 1);
    CloseParenThenExact(s, e + 1, "=>");
    assert ArrowHeadParts(s, i, b, c, d, e);
  }

  lemma ArrowConstComplete(s: string, i: nat, name: string, b: int, c: int, d: int, e: int)
    requires i <= |s| && ArrowHeadParts(s, i, b, c, d, e) && s[b..c] == name
    requires TailMatches(s, e + 1, "=>")
    ensures ArrowConstAt(s, i) == Some(name)
  {
    ArrowHeadEnds(s, i, b, c, d, e);
    var k, m :| TailParts(s, e + 1, "=>", k, m);
    CloseParenThenComplete(s, e + 1, "=>", k, m);
  }

  /** The pieces of an arrow-function head are where the matcher's maximal runs
      end. */
  lemma ArrowHeadEnds(s: string, i: nat, b: int, c: int, d: int, e: int)
    requires i <= |s| && ArrowHeadParts(s, i, b, c, d, e)
    ensures SkipSpace(s, i + 5) == b && SkipWord(s, b) == c && SkipSpace(s, c) == d
    ensures SkipSpace(s, d + 1) == e
  {
    SpacesBeforeNonSpace(s, i + 5, b);
    WordEnd(s, b, c);
    SpacesBeforeNonSpace(s, c, d);
    SpacesBeforeNonSpace(s, d + 1, e);
  }

  lemma ArrowConstExact(s: string, i: nat, name: string)
    requires i <= |s|
    ensures ArrowConstAt(s, i) == Some(name) <==> ArrowConstMatches(s, i, name)
  {
    if ArrowConstAt(s, i) == Some(name) {
      ArrowConstSound(s, i, name);
    }
    if ArrowConstMatches(s, i, name) {
      var b, c, d, e :| ArrowHeadParts(s, i, b, c, d, e) && s[b..c] == name
                        && TailMatches(s, e + 1, "=>");
      ArrowConstComplete(s, i, name, b, c, d, e);
    }
  }

  /** The group-skipping branch needs a space first, so it fails on a keyword. */
  lemma NoJavaTailAtLetter(s: string, p: nat, name: string)
    requires p < |s| && s[p] == 'p'
    ensures JavaTail(s, p).None? && !JavaTailMatches(s, p, name)
  {
    assert SkipSpace(s, p) == p;
  }

  lemma JavaMethodExact(s: string, i: nat, name: string)
    requires i <= |s|
    ensures JavaMethodAt(s, i) == Some(name) <==> JavaMethodMatches(s, i, name)
  {
    var pub, priv, prot := OccursAt(s, "public", i), OccursAt(s, "private", i), OccursAt(s, "protected", i);
    if pub {
      assert s[i..i + 6][0] == 'p' && s[i..i + 6][1] == 'u';
      assert s[i + 1] == 'u';
      assert !priv by { if i + 7 <= |s| { assert s[i..i + 7][1] == s[i + 1]; } }
      assert !prot by { if i + 9 <= |s| { assert s[i..i + 9][1] == s[i + 1]; } }
      NoJavaTailAtLetter(s, i, name);
      JavaTailExact(s, i + 6, name);
    } else if priv {
      assert s[i..i + 7][0] == 'p' && s[i..i + 7][2] == 'i';
      assert s[i + 2] == 'i';
      assert !prot by { if i + 9 <= |s| { assert s[i..i + 9][2] == s[i + 2]; } }
      NoJavaTailAtLetter(s, i, name);
      JavaTailExact(s, i + 7, name);
    } else if prot {
      assert s[i..i + 9][0] == 'p';
      NoJavaTailAtLetter(s, i, name);
      JavaTailExact(s, i + 9, name);
    } else {
      JavaTailExact(s, i, name);
    }
  }

  lemma CFunctionSound(s: string, i: nat, name: string)
    requires i <= |s| && CFunctionAt(s, i) == Some(name)
    ensures CFunctionMatches(s, i, name)
  {
    var c := SkipWord(s, i);
    var d := SkipSpace(s, c);
    var e := SkipWord(s, d);
    var f := SkipSpace(s, e);
    CloseParenThenExact(s, f + 1, "{");
    assert CHeadParts(s, i, c, d, e, f);
  }

  lemma CFunctionComplete(s: string, i: nat, name: string, c: int, d: int, e: int, f: int)
    requires i <= |s| && CHeadParts(s, i, c, d, e, f) && s[d..e] == name
    requires TailMatches(s, f + 1, "{")
    ensures CFunctionAt(s, i) == Some(name)
  {
    WordEnd(s, i, c);
    SpacesBeforeNonSpace(s, c, d);
    WordEnd(s, d, e);
    SpacesBeforeNonSpace(s, e, f);
    CloseParenThenExact(s, f + 1, "{");
  }

  lemma CFunctionExact(s: string, i: nat, name: string)
    requires i <= |s|
    ensures CFunctionAt(s, i) == Some(name) <==> CFunctionMatches(s, i, name)
  {
    if CFunctionAt(s, i) == Some(name) {
      CFunctionSound(s, i, name);
    }
    if CFunctionMatches(s, i, name) {
      var c, d, e, f :| CHeadParts(s, i, c, d, e, f) && s[d..e] == name && TailMatches(s, f + 1, "{");
      CFunctionComplete(s, i, name, c, d, e, f);
    }
  }

  /** The matcher returns exactly the captures of the declarative reading; in
      particular the capture at a position is unique. */
  lemma MatchAtExact(p: Pattern, s: string, i: nat, name: string)
    requires i <= |s|
    ensures MatchAt(p, s, i) == Some(name) <==> MatchesWith(p, s, i, name)
  {
    match p
    case FunctionDecl => FunctionDeclExact(s, i, name);
    case ArrowConst => ArrowConstExact(s, i, name);
    case JavaMethod => JavaMethodExact(s, i, name);
    case CFunction => CFunctionExact(s, i, name);
  }

  ghost predicate IsIdentifierIn(n: string, s: string) {
    |n| > 0 && (forall k :: 0 <= k < |n| ==> IsWordChar(n[k])) && exists j :: OccursAt(s, n, j)
  }

  lemma WordSlice(s: string, b: int, c: int)
    requires Word(s, b, c)
    ensures IsIdentifierIn(s[b..c], s)
  {
    assert OccursAt(s, s[b..c], b);
  }

  lemma JavaTailIdentifier(s: string, p: nat)
    requires p <= |s| && JavaTail(s, p).Some?
    ensures IsIdentifierIn(JavaTail(s, p).value, s)
  {
    var b := SkipSpace(s, p);
    var c := SkipWord(s, b);
    var d := SkipSpace(s, c);
    var e := SkipWord(s, d);
    WordSlice(s, d, e);
  }

  lemma FunctionDeclIdentifier(s: string, i: nat)
    requires i <= |s| && FunctionDeclAt(s, i).Some?
    ensures IsIdentifierIn(FunctionDeclAt(s, i).value, s)
  {
    var b := SkipSpace(s, i + 8);
    WordSlice(s, b, SkipWord(s, b));
  }

  lemma ArrowConstIdentifier(s: string, i: nat)
    requires i <= |s| && ArrowConstAt(s, i).Some?
    ensures IsIdentifierIn(ArrowConstAt(s, i).value, s)
  {
    var b := SkipSpace(s, i + 5);
    WordSlice(s, b, SkipWord(s, b));
  }

  lemma JavaMethodIdentifier(s: string, i: nat)
    requires i <= |s| && JavaMethodAt(s, i).Some?
    ensures IsIdentifierIn(JavaMethodAt(s, i).value, s)
  {
    var q := if OccursAt(s, "public", i) then i + 6
      else if OccursAt(s, "private", i) then i + 7
      else if OccursAt(s, "protected", i) then i + 9
      else i;
    if q != i && JavaTail(s, q).Some? {
      assert JavaMethodAt(s, i) == JavaTail(s, q);
      JavaTailIdentifier(s, q);
    } else {
      assert JavaMethodAt(s, i) == JavaTail(s, i);
      JavaTailIdentifier(s, i);
    }
  }

  lemma CFunctionIdentifier(s: string, i: nat)
    requires i <= |s| && CFunctionAt(s, i).Some?
    ensures IsIdentifierIn(CFunctionAt(s, i).value, s)
  {
    var d := SkipSpace(s, SkipWord(s, i));
    WordSlice(s, d, SkipWord(s, d));
  }

  /** Every capture is a non-empty identifier (`\w+`) taken from the text. */
  lemma CaptureIsIdentifier(p: Pattern, s: string, i: nat)
    requires i <= |s| && MatchAt(p, s, i).Some?
    ensures IsIdentifierIn(MatchAt(p, s, i).value, s)
  {
    match p
    case FunctionDecl => FunctionDeclIdentifier(s, i);
    case ArrowConst => ArrowConstIdentifier(s, i);
    case JavaMethod => JavaMethodIdentifier(s, i);
    case CFunction => CFunctionIdentifier(s, i);
  }

  /** What `line.match(re)` promises: the match is at the leftmost position where
      the pattern matches at all, and its capture is a non-empty identifier. */
  lemma FirstMatchSpec(p: Pattern, s: string)
    ensures FirstMatch(p, s).None? <==> forall i, n :: 0 <= i <= |s| ==> !MatchesWith(p, s, i, n)
    ensures FirstMatch(p, s).Some? ==>
      var n := FirstMatch(p, s).value;
      IsIdentifierIn(n, s)
      && exists i :: 0 <= i <= |s| && MatchesWith(p, s, i, n)
                     && forall j, m :: 0 <= j < i ==> !MatchesWith(p, s, j, m)
  {
    var r := FirstMatch(p, s);
    var ms := Attempts(p, s);
    assert |ms| == |s| + 1;
    FirstSomeSpec(ms, 0);
    if r.None? {
      forall i, n | 0 <= i <= |s| ensures !MatchesWith(p, s, i, n) {
        assert ms[i] == MatchAt(p, s, i);
        MatchAtExact(p, s, i, n);
      }
    } else {
      var i :| 0 <= i < |ms| && ms[i] == r && forall k :: 0 <= k < i ==> ms[k].None?;
      assert MatchAt(p, s, i) == r;
      MatchAtExact(p, s, i, r.value);
      CaptureIsIdentifier(p, s, i);
      forall j, m | 0 <= j < i ensures !MatchesWith(p, s, j, m) {
        assert ms[j] == MatchAt(p, s, j);
        MatchAtExact(p, s, j, m);
      }
      assert MatchAt(p, s, i).Some?;
    }
  }
}
