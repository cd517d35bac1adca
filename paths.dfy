/**
 * Node's POSIX `path.extname`, which the upload route applies to each uploaded
 * file's `originalname`: the last path segment (trailing `/` ignored) from its
 * last `.` on, or "" when the segment has no dot, starts with its only relevant
 * dot (a dot-file such as `.gitignore`), or is `..`.
 */
module Paths {
  /** The index of the last `c` before position `j` of `s`, or -1. */
  function LastIndexBefore(s: string, c: char, j: nat): (r: int)
    requires j <= |s|
    ensures -1 <= r < j
    ensures r >= 0 ==> s[r] == c
    ensures forall k :: r < k < j ==> s[k] != c
  {
    if j == 0 then -1 else if s[j - 1] == c then j - 1 else LastIndexBefore(s, c, j - 1)
  }

  /** The index of the last `c` in `s`, or -1. */
  function LastIndexOfChar(s: string, c: char): (r: int)
    ensures -1 <= r < |s|
    ensures r == -1 <==> forall k :: 0 <= k < |s| ==> s[k] != c
    ensures r >= 0 ==> s[r] == c && forall k :: r < k < |s| ==> s[k] != c
  {
    LastIndexBefore(s, c, |s|)
  }

  /** Where the last `c` of a concatenation is. */
  lemma LastIndexAppend(s: string, t: string, c: char)
    ensures LastIndexOfChar(s + t, c)
         == if LastIndexOfChar(t, c) >= 0 then |s| + LastIndexOfChar(t, c) else LastIndexOfChar(s, c)
  {
    var st := s + t;
    var r := LastIndexOfChar(st, c);
    if LastIndexOfChar(t, c) >= 0 {
      var q := |s| + LastIndexOfChar(t, c);
      assert st[q] == c;
      assert forall k :: q < k < |st| ==> st[k] == t[k - |s|];
    } else {
      assert forall k :: |s| <= k < |st| ==> st[k] == t[k - |s|];
      if LastIndexOfChar(s, c) >= 0 {
        assert st[LastIndexOfChar(s, c)] == c;
      } else {
        assert forall k :: 0 <= k < |s| ==> st[k] == s[k];
      }
    }
  }

  /** The start of the run of `/` ending at position `j` of `s`. */
  function SlashRunStart(s: string, j: nat): (n: nat)
    requires j <= |s|
    ensures n <= j
    ensures forall k :: n <= k < j ==> s[k] == '/'
    ensures n == 0 || s[n - 1] != '/'
  {
    if j > 0 && s[j - 1] == '/' then SlashRunStart(s, j - 1) else j
  }

  /** `s` without its trailing run of `/`. */
  function StripTrailingSlashes(s: string): (r: string)
    ensures |r| <= |s| && r == s[..|r|]
    ensures r == [] || r[|r| - 1] != '/'
    ensures forall k :: |r| <= k < |s| ==> s[k] == '/'
  {
    s[..SlashRunStart(s, |s|)]
  }

  /** The last path segment: what follows the last `/` once trailing slashes are
      dropped. */
  function Basename(p: string): (r: string) {
    var q := StripTrailingSlashes(p);
    q[LastIndexOfChar(q, '/') + 1..]
  }

  /** `path.extname(p)` */
  function Extname(p: string): string {
    var segment := Basename(p);
    var dot := LastIndexOfChar(segment, '.');
    if dot <= 0 || segment == ".." then "" else segment[dot..]
  }

  // ---------------------------------------------------------------------------
  // Properties

  /** An extension as `extname` returns it: a `.` followed by no `.` and no `/`. */
  predicate IsExtension(e: string) {
    |e| >= 1 && e[0] == '.' && forall k :: 1 <= k < |e| ==> e[k] != '.' && e[k] != '/'
  }

  /** The last segment ends the slash-stripped path and holds no `/`. */
  lemma BasenameShape(p: string)
    ensures var q, b := StripTrailingSlashes(p), Basename(p);
      |b| <= |q| && q[|q| - |b|..] == b && forall k :: 0 <= k < |b| ==> b[k] != '/'
  {
    var q := StripTrailingSlashes(p);
    var start := LastIndexOfChar(q, '/') + 1;
    assert forall k :: 0 <= k < |q| - start ==> q[start..][k] == q[start + k];
  }

  /** From the last dot of a segment with no `/` on is an extension. */
  lemma ExtensionFromLastDot(segment: string, dot: nat)
    requires dot < |segment| && segment[dot] == '.'
    requires forall k :: dot < k < |segment| ==> segment[k] != '.'
    requires forall k :: 0 <= k < |segment| ==> segment[k] != '/'
    ensures IsExtension(segment[dot..])
  {
    var r := segment[dot..];
    forall k | 1 <= k < |r| ensures r[k] != '.' && r[k] != '/' {
      assert r[k] == segment[dot + k];
    }
  }

  /** The result is "" or an extension that ends the path (up to trailing slashes)
      and is preceded there by at least one character of the same segment. */
  lemma ExtnameShape(p: string)
    ensures var r := Extname(p);
      r == "" ||
      (IsExtension(r)
       && var q := StripTrailingSlashes(p);
          |r| < |q| && q[|q| - |r|..] == r && q[|q| - |r| - 1] != '/')
  {
    var dot := LastIndexOfChar(Basename(p), '.');
    if dot > 0 {
      SegmentExtension(p, dot);
    }
  }

  /** From the last dot (not the first character) of the last segment on is an
      extension that ends the path and follows a character of the segment. */
  lemma SegmentExtension(p: string, dot: int)
    requires dot == LastIndexOfChar(Basename(p), '.') && dot > 0
    ensures var q, r := StripTrailingSlashes(p), Basename(p)[dot..];
      IsExtension(r) && |r| < |q| && q[|q| - |r|..] == r && q[|q| - |r| - 1] != '/'
  {
    BasenameShape(p);
    var q, segment := StripTrailingSlashes(p), Basename(p);
    ExtensionFromLastDot(segment, dot);
    var off := |q| - |segment|;
    assert q[off + dot - 1] == segment[dot - 1];
    assert q[off + dot..] == segment[dot..];
  }

  /** A path that does not end in `/` keeps all of its characters. */
  lemma NoTrailingSlash(p: string)
    requires p != [] && p[|p| - 1] != '/'
    ensures StripTrailingSlashes(p) == p
  {
  }

  /** Extending a path by text with no `/` extends its last segment. */
  lemma BasenameExtend(stem: string, t: string)
    requires stem != [] && stem[|stem| - 1] != '/'
    requires t != [] && t[|t| - 1] != '/' && forall k :: 0 <= k < |t| ==> t[k] != '/'
    ensures Basename(stem + t) == Basename(stem) + t
    ensures Basename(stem) != []
  {
    var p := stem + t;
    assert p[|p| - 1] == t[|t| - 1];
    NoTrailingSlash(p);
    NoTrailingSlash(stem);
    LastIndexAppend(stem, t, '/');
    var start := LastIndexOfChar(stem, '/') + 1;
    assert p[start..] == stem[start..] + t;
  }

  /** After a directory prefix (empty or ending in `/`), a name with no `/` is the
      last segment. */
  lemma BasenameAfterDir(dir: string, name: string)
    requires dir == [] || dir[|dir| - 1] == '/'
    requires name != [] && name[|name| - 1] != '/' && forall k :: 0 <= k < |name| ==> name[k] != '/'
    ensures Basename(dir + name) == name
  {
    var p := dir + name;
    assert p[|p| - 1] == name[|name| - 1];
    NoTrailingSlash(p);
    LastIndexAppend(dir, name, '/');
    if dir != [] {
      assert LastIndexOfChar(dir, '/') == |dir| - 1;
    }
    assert p[|dir|..] == name;
  }

  /** A name made of a non-empty stem not ending in `/` followed by an extension of
      at least two characters has exactly that extension. */
  lemma ExtnameOf(stem: string, e: string)
    requires IsExtension(e) && |e| >= 2
    requires stem != [] && stem[|stem| - 1] != '/'
    ensures Extname(stem + e) == e
  {
    var seg := Basename(stem);
    assert Basename(stem + e) == seg + e && seg != [] by { BasenameExtend(stem, e); }
    assert LastIndexOfChar(seg + e, '.') == |seg| by {
      LeadingDotOnly(e);
      LastIndexAppend(seg, e, '.');
    }
    assert (seg + e)[|seg|..] == e;
    assert seg + e != ".." by { assert (seg + e)[|seg + e| - 1] == e[|e| - 1]; }
  }

  /** A segment whose only dot is its first character (a dot-file) has no
      extension. */
  lemma DotFileHasNoExtension(dir: string, name: string)
    requires dir == [] || dir[|dir| - 1] == '/'
    requires |name| >= 2 && name[0] == '.' && forall k :: 1 <= k < |name| ==> name[k] != '.' && name[k] != '/'
    ensures Extname(dir + name) == ""
  {
    assert LastIndexOfChar(name, '.') == 0 by { LeadingDotOnly(name); }
    assert Basename(dir + name) == name by { BasenameAfterDir(dir, name); }
    NoDotAfterStart(dir + name, name);
  }

  lemma LeadingDotOnly(name: string)
    requires |name| >= 1 && name[0] == '.' && forall k :: 1 <= k < |name| ==> name[k] != '.'
    ensures LastIndexOfChar(name, '.') == 0
  {
  }

  /** Without a dot after the first character of the last segment there is no
      extension. */
  lemma NoDotAfterStart(p: string, segment: string)
    requires Basename(p) == segment && LastIndexOfChar(segment, '.') <= 0
    ensures Extname(p) == ""
  {
  }
}
