/**
 * The file-selection rules shared by the two upload components
 * (frontend/src/components/UploadSection.js and its copy
 * frontend/src/components/GraphVisualizer.js): `addFiles` filters a batch by
 * extension, derives each entry's `path` and `ext`, and appends the entries whose
 * path is not yet listed; `removeFile` drops one index; `traverseFileTree`
 * flattens a dropped directory tree into path-carrying records, skipping the
 * ignored directory names.
 */
module FileSelection {
  import opened JsText

  /** A browser `File`: its name, its folder-relative path ("" when the file was
      not picked through a folder input) and its size. */
  datatype BrowserFile = BrowserFile(name: string, webkitRelativePath: string, size: nat)

  /** What `addFiles` is given: a browser `File` from the file input, or one of the
      records `traverseFileTree` builds for a dropped file, which carries the file
      and the path from the drop root but has no `webkitRelativePath`. */
  datatype Picked = Native(file: BrowserFile) | Traversed(file: BrowserFile, path: string)
  {
    /** `f.name`: both kinds expose the file's own name. */
    function Name(): string { file.name }

    /** `f.webkitRelativePath`, with an absent property read as "". */
    function RelativePath(): string {
      if Native? then file.webkitRelativePath else ""
    }
  }

  /** `{ file, name, path, size, ext }` */
  datatype Entry = Entry(file: Picked, name: string, path: string, size: nat, ext: string)

  /** `acceptedExtensions` */
  const AcceptedExtensions: seq<string> := [".js", ".ts", ".jsx", ".tsx", ".java", ".cpp", ".c", ".py"]

  /** `exts.some(ext => name.endsWith(ext))` */
  function EndsWithAny(name: string, exts: seq<string>): bool {
    if exts == [] then false else EndsWith(name, exts[0]) || EndsWithAny(name, exts[1..])
  }

  /** The extension test of `addFiles` (case-sensitive). */
  predicate Acceptable(f: Picked) {
    EndsWithAny(f.Name(), AcceptedExtensions)
  }

  /** `name.split(".").pop().toLowerCase()` */
  function ExtOf(name: string): string {
    ToLowerAscii(LastPiece(name, '.'))
  }

  /** `f.webkitRelativePath || f.name`, the key `addFiles` derives. */
  function AsWrittenPath(f: Picked): string {
    if f.RelativePath() != "" then f.RelativePath() else f.Name()
  }

  /** The key a dropped file was evidently meant to get: the path its traversal
      record carries. */
  function IntendedPath(f: Picked): string {
    match f
    case Native(_) => AsWrittenPath(f)
    case Traversed(_, path) => path
  }

  function MakeEntry(f: Picked, pathOf: Picked -> string): Entry {
    Entry(f, f.Name(), pathOf(f), f.file.size, ExtOf(f.Name()))
  }

  /** `newFiles`: the accepted files of the batch as entries, in batch order. */
  function Candidates(batch: seq<Picked>, pathOf: Picked -> string): seq<Entry> {
    if batch == [] then []
    else
      var f := batch[|batch| - 1];
      Candidates(batch[..|batch| - 1], pathOf) + (if Acceptable(f) then [MakeEntry(f, pathOf)] else [])
  }

  /** `new Set(prev.map(f => f.path))` */
  function PathsOf(list: seq<Entry>): set<string> {
    set e | e in list :: e.path
  }

  /** `entries.filter(f => !seen.has(f.path))` */
  function Unseen(entries: seq<Entry>, seen: set<string>): seq<Entry> {
    if entries == [] then []
    else
      var e := entries[|entries| - 1];
      Unseen(entries[..|entries| - 1], seen) + (if e.path in seen then [] else [e])
  }

  /** `addFiles` with the entry key given by `pathOf`. */
  function AddFilesWith(prev: seq<Entry>, batch: seq<Picked>, pathOf: Picked -> string): seq<Entry> {
    prev + Unseen(Candidates(batch, pathOf), PathsOf(prev))
  }

  /** `addFiles` as written: every entry is keyed by `webkitRelativePath || name`. */
  function AddFiles(prev: seq<Entry>, batch: seq<Picked>): seq<Entry> {
    AddFilesWith(prev, batch, AsWrittenPath)
  }

  /** `addFiles` keying a dropped file by the path its traversal record carries. */
  function AddFilesFixed(prev: seq<Entry>, batch: seq<Picked>): seq<Entry> {
    AddFilesWith(prev, batch, IntendedPath)
  }

  /** `prev.filter((_, index) => index !== i)` */
  function RemoveAt(list: seq<Entry>, i: int): seq<Entry> {
    if list == [] then []
    else RemoveAt(list[..|list| - 1], i) + (if |list| - 1 == i then [] else [list[|list| - 1]])
  }

  // ---------------------------------------------------------------------------
  // Directory traversal

  /** A dropped file-system entry. */
  datatype FsEntry = FileNode(file: BrowserFile) | DirNode(name: string, children: seq<FsEntry>)

  /** `traverseFileTree(entry, prefix)`: a file gives one record with path
      `prefix + name`; a directory whose name is ignored gives nothing; any other
      directory gives its children's records, in order, under `prefix + name + "/"`. */
  function Traverse(entry: FsEntry, prefix: string, ignored: seq<string>): seq<Picked>
    decreases entry
  {
    match entry
    case FileNode(f) => [Traversed(f, prefix + f.name)]
    case DirNode(name, children) =>
      if name in ignored then [] else TraverseAll(children, prefix + name + "/", ignored)
  }

  /** `Promise.all(entries.map(...))` followed by `flat()`. */
  function TraverseAll(entries: seq<FsEntry>, prefix: string, ignored: seq<string>): seq<Picked>
    decreases entries
  {
    if entries == [] then []
    else Traverse(entries[0], prefix, ignored) + TraverseAll(entries[1..], prefix, ignored)
  }

  /** The folders skipped by the UploadSection.js traversal. */
  const UploadSectionIgnored: seq<string> := ["node_modules", ".git", "dist", "build"]

  // ---------------------------------------------------------------------------
  // Properties of addFiles and removeFile

  /** The extension test accepts exactly the names ending with one of the list. */
  lemma {:induction false} EndsWithAnySpec(name: string, exts: seq<string>)
    ensures EndsWithAny(name, exts) <==> exists k :: 0 <= k < |exts| && EndsWith(name, exts[k])
  {
    if exts != [] {
      EndsWithAnySpec(name, exts[1..]);
      if EndsWithAny(name, exts[1..]) {
        var k :| 0 <= k < |exts[1..]| && EndsWith(name, exts[1..][k]);
        assert EndsWith(name, exts[k + 1]);
      }
      if exists k :: 0 <= k < |exts| && EndsWith(name, exts[k]) {
        var k :| 0 <= k < |exts| && EndsWith(name, exts[k]);
        if k > 0 {
          assert exts[1..][k - 1] == exts[k];
        }
      }
    }
  }

  /** The candidates are exactly the accepted files of the batch, turned into
      entries, and there are no more of them than files. */
  lemma {:induction false} CandidatesSpec(batch: seq<Picked>, pathOf: Picked -> string)
    ensures |Candidates(batch, pathOf)| <= |batch|
    ensures forall e :: e in Candidates(batch, pathOf) <==>
      exists f :: f in batch && Acceptable(f) && e == MakeEntry(f, pathOf)
  {
    if batch != [] {
      var init := batch[..|batch| - 1];
      var f := batch[|batch| - 1];
      CandidatesSpec(init, pathOf);
      assert batch == init + [f];
      forall e | exists g :: g in batch && Acceptable(g) && e == MakeEntry(g, pathOf)
        ensures e in Candidates(batch, pathOf)
      {
        var g :| g in batch && Acceptable(g) && e == MakeEntry(g, pathOf);
        if g != f {
          assert g in init;
        }
      }
    }
  }

  /** The batch is converted file by file: the candidates of a concatenation are
      the candidates of its parts, in batch order. */
  lemma {:induction false} CandidatesAppend(a: seq<Picked>, b: seq<Picked>, pathOf: Picked -> string)
    ensures Candidates(a + b, pathOf) == Candidates(a, pathOf) + Candidates(b, pathOf)
  {
    if b == [] {
      assert a + b == a;
    } else {
      var init, last := b[..|b| - 1], b[|b| - 1];
      CandidatesAppend(a, init, pathOf);
      assert (a + b)[..|a + b| - 1] == a + init;
      assert (a + b)[|a + b| - 1] == last;
    }
  }

  /** `Unseen` keeps exactly the entries whose path is not yet seen, each as often
      as it occurs in the input. */
  lemma {:induction false} UnseenSpec(entries: seq<Entry>, seen: set<string>)
    ensures |Unseen(entries, seen)| <= |entries|
    ensures forall e :: e in Unseen(entries, seen) <==> e in entries && e.path !in seen
    ensures forall e :: multiset(Unseen(entries, seen))[e] == if e.path in seen then 0 else multiset(entries)[e]
  {
    if entries != [] {
      var init, last := entries[..|entries| - 1], entries[|entries| - 1];
      UnseenSpec(init, seen);
      assert multiset(entries) == multiset(init) + multiset{last} by {
        assert entries == init + [last];
      }
      assert forall e :: e in entries <==> e in init || e == last by {
        assert entries == init + [last];
      }
    }
  }

  /** The filter works entry by entry: filtering a concatenation is concatenating
      the filtered parts, so the kept entries stay in input order. */
  lemma {:induction false} UnseenAppend(a: seq<Entry>, b: seq<Entry>, seen: set<string>)
    ensures Unseen(a + b, seen) == Unseen(a, seen) + Unseen(b, seen)
  {
    if b == [] {
      assert a + b == a;
    } else {
      var init, last := b[..|b| - 1], b[|b| - 1];
      UnseenAppend(a, init, seen);
      assert (a + b)[..|a + b| - 1] == a + init;
      assert (a + b)[|a + b| - 1] == last;
    }
  }

  /** With nothing seen, every entry is kept, in order. */
  lemma {:induction false} UnseenNoneSeen(entries: seq<Entry>)
    ensures Unseen(entries, {}) == entries
  {
    if entries != [] {
      UnseenNoneSeen(entries[..|entries| - 1]);
      assert entries == entries[..|entries| - 1] + [entries[|entries| - 1]];
    }
  }

  /** A one-entry list is kept exactly when its path is not yet seen. */
  lemma UnseenSingle(e: Entry, seen: set<string>)
    ensures Unseen([e], seen) == if e.path in seen then [] else [e]
  {
    assert [e][..0] == [];
  }

  /** A one-file batch yields its entry exactly when the file is accepted. */
  lemma SingleCandidate(f: Picked, pathOf: Picked -> string)
    ensures Candidates([f], pathOf) == if Acceptable(f) then [MakeEntry(f, pathOf)] else []
  {
    assert [f][..0] == [];
  }

  /** A file named `a.js` is accepted. */
  lemma NamedJsAccepted(f: Picked)
    requires f.Name() == "a.js"
    ensures Acceptable(f)
  {
    assert EndsWith("a.js", ".js") by { assert "a.js"[4 - 3..] == ".js"; }
  }

  /** The previous list is an unchanged prefix; the appended entries are exactly
      the accepted files of the batch whose path was not listed before, each as
      often as the batch yields it (so same-path files of one batch all stay). */
  lemma AddFilesSpec(prev: seq<Entry>, batch: seq<Picked>, pathOf: Picked -> string)
    ensures |prev| <= |AddFilesWith(prev, batch, pathOf)| <= |prev| + |batch|
    ensures AddFilesWith(prev, batch, pathOf)[..|prev|] == prev
    ensures forall e :: e in AddFilesWith(prev, batch, pathOf)[|prev|..] <==>
      (exists f :: f in batch && Acceptable(f) && e == MakeEntry(f, pathOf)) && e.path !in PathsOf(prev)
    ensures forall e ::
      multiset(AddFilesWith(prev, batch, pathOf)[|prev|..])[e] ==
      (if e.path in PathsOf(prev) then 0 else multiset(Candidates(batch, pathOf))[e])
  {
    var cands := Candidates(batch, pathOf);
    CandidatesSpec(batch, pathOf);
    UnseenSpec(cands, PathsOf(prev));
    var r := AddFilesWith(prev, batch, pathOf);
    assert r[|prev|..] == Unseen(cands, PathsOf(prev));
  }

  /** Every path of the batch's candidates is listed afterwards. */
  lemma CandidatePathsListed(prev: seq<Entry>, batch: seq<Picked>, pathOf: Picked -> string)
    ensures forall e :: e in Candidates(batch, pathOf) ==> e.path in PathsOf(AddFilesWith(prev, batch, pathOf))
  {
    var cands := Candidates(batch, pathOf);
    var r := AddFilesWith(prev, batch, pathOf);
    UnseenSpec(cands, PathsOf(prev));
    forall e | e in cands ensures e.path in PathsOf(r) {
      if e.path in PathsOf(prev) {
        var p :| p in prev && p.path == e.path;
        assert p in r;
      } else {
        assert e in Unseen(cands, PathsOf(prev));
        assert e in r;
      }
    }
  }

  /** Nothing is unseen when every path is seen. */
  lemma {:induction false} UnseenAllSeen(entries: seq<Entry>, seen: set<string>)
    requires forall e :: e in entries ==> e.path in seen
    ensures Unseen(entries, seen) == []
  {
    if entries != [] {
      UnseenAllSeen(entries[..|entries| - 1], seen);
      assert entries[|entries| - 1] in entries;
    }
  }

  /** Adding the same batch a second time changes nothing. */
  lemma AddFilesIdempotent(prev: seq<Entry>, batch: seq<Picked>, pathOf: Picked -> string)
    ensures AddFilesWith(AddFilesWith(prev, batch, pathOf), batch, pathOf) == AddFilesWith(prev, batch, pathOf)
  {
    var r := AddFilesWith(prev, batch, pathOf);
    CandidatePathsListed(prev, batch, pathOf);
    UnseenAllSeen(Candidates(batch, pathOf), PathsOf(r));
    assert r + [] == r;
  }

  /** A one-file batch appends the file's entry exactly when it is accepted and
      its path is not listed yet. */
  lemma AddFilesSingle(prev: seq<Entry>, f: Picked, pathOf: Picked -> string)
    ensures AddFilesWith(prev, [f], pathOf) ==
      prev + (if Acceptable(f) && pathOf(f) !in PathsOf(prev) then [MakeEntry(f, pathOf)] else [])
  {
    assert [f][..0] == [];
    SingleCandidate(f, pathOf);
    if Acceptable(f) {
      UnseenSingle(MakeEntry(f, pathOf), PathsOf(prev));
    } else {
      assert prev + [] == prev;
    }
  }

  /** A batch is appended in its own order, and its later files are checked only
      against the previous list, never against its earlier files. With
      AddFilesSingle this fixes the whole appended part, file by file. */
  lemma AddFilesBatchOrder(prev: seq<Entry>, a: seq<Picked>, b: seq<Picked>, pathOf: Picked -> string)
    ensures AddFilesWith(prev, a + b, pathOf) ==
      AddFilesWith(prev, a, pathOf) + AddFilesWith(prev, b, pathOf)[|prev|..]
  {
    var seen := PathsOf(prev);
    CandidatesAppend(a, b, pathOf);
    UnseenAppend(Candidates(a, pathOf), Candidates(b, pathOf), seen);
    assert AddFilesWith(prev, b, pathOf)[|prev|..] == Unseen(Candidates(b, pathOf), seen);
  }

  /** Two files of one batch with the same path are both appended when that path is
      not listed yet: the batch is only checked against the previous list. */
  lemma BatchDuplicatesKept(prev: seq<Entry>, f: Picked, g: Picked, pathOf: Picked -> string)
    requires Acceptable(f) && Acceptable(g) && pathOf(f) == pathOf(g) && pathOf(f) !in PathsOf(prev)
    ensures AddFilesWith(prev, [f, g], pathOf) == prev + [MakeEntry(f, pathOf), MakeEntry(g, pathOf)]
  {
    AddFilesBatchOrder(prev, [f], [g], pathOf);
    assert [f] + [g] == [f, g];
    AddFilesSingle(prev, f, pathOf);
    AddFilesSingle(prev, g, pathOf);
  }

  /** The derived fields: `path` is the relative path when there is one and the name
      otherwise; `ext` is the lowercased text after the last dot, or the whole name
      lowercased when it has no dot. */
  lemma EntryFields(f: Picked)
    ensures var e := MakeEntry(f, AsWrittenPath);
      && e.name == f.Name() && e.size == f.file.size
      && (f.RelativePath() != "" ==> e.path == f.RelativePath())
      && (f.RelativePath() == "" ==> e.path == f.Name())
      && exists raw :: e.ext == ToLowerAscii(raw)
           && (forall k :: 0 <= k < |raw| ==> raw[k] != '.')
           && (raw == f.Name() || EndsWith(f.Name(), "." + raw))
  {
    var raw := LastPiece(f.Name(), '.');
    LastPieceShape(f.Name(), '.');
    assert ExtOf(f.Name()) == ToLowerAscii(raw);
  }

  /** `removeFile(i)` drops exactly position `i` and keeps the rest in order; an
      index outside the list leaves it unchanged. */
  lemma {:induction false} RemoveAtSpec(list: seq<Entry>, i: int)
    ensures 0 <= i < |list| ==> RemoveAt(list, i) == list[..i] + list[i + 1..]
    ensures !(0 <= i < |list|) ==> RemoveAt(list, i) == list
  {
    if list != [] {
      var init := list[..|list| - 1];
      RemoveAtSpec(init, i);
      if i == |list| - 1 {
        assert list[..i] == init;
        assert list[i + 1..] == [];
      } else if 0 <= i < |list| - 1 {
        assert init[..i] == list[..i];
        assert init[i + 1..] + [list[|list| - 1]] == list[i + 1..];
      } else {
        assert init + [list[|list| - 1]] == list;
      }
    }
  }

  // ---------------------------------------------------------------------------
  // Properties of the traversal

  /** A file of a dropped tree with the names of the directories above it, from the
      dropped entry down. */
  datatype Leaf = Leaf(dirs: seq<string>, file: BrowserFile)

  function UnderDir(name: string, leaves: seq<Leaf>): seq<Leaf> {
    if leaves == [] then []
    else [Leaf([name] + leaves[0].dirs, leaves[0].file)] + UnderDir(name, leaves[1..])
  }

  /** Every file of the tree, depth first in child order, whatever its directories
      are called. */
  function Leaves(entry: FsEntry): seq<Leaf>
    decreases entry
  {
    match entry
    case FileNode(f) => [Leaf([], f)]
    case DirNode(name, children) => UnderDir(name, LeavesAll(children))
  }

  function LeavesAll(entries: seq<FsEntry>): seq<Leaf>
    decreases entries
  {
    if entries == [] then [] else Leaves(entries[0]) + LeavesAll(entries[1..])
  }

  /** `d1/d2/.../` */
  function DirPrefix(dirs: seq<string>): string {
    if dirs == [] then "" else dirs[0] + "/" + DirPrefix(dirs[1..])
  }

  /** No directory above the file is ignored. */
  predicate Visible(leaf: Leaf, ignored: seq<string>) {
    forall k :: 0 <= k < |leaf.dirs| ==> leaf.dirs[k] !in ignored
  }

  /** The records for the visible leaves, each with its directory path. */
  function Render(prefix: string, leaves: seq<Leaf>, ignored: seq<string>): seq<Picked> {
    if leaves == [] then []
    else
      (if Visible(leaves[0], ignored)
       then [Traversed(leaves[0].file, prefix + DirPrefix(leaves[0].dirs) + leaves[0].file.name)]
       else [])
      + Render(prefix, leaves[1..], ignored)
  }

  lemma {:induction false} RenderAppend(prefix: string, a: seq<Leaf>, b: seq<Leaf>, ignored: seq<string>)
    ensures Render(prefix, a + b, ignored) == Render(prefix, a, ignored) + Render(prefix, b, ignored)
  {
    if a != [] {
      assert (a + b)[0] == a[0];
      assert (a + b)[1..] == a[1..] + b;
      RenderAppend(prefix, a[1..], b, ignored);
      ConcatAssoc(if Visible(a[0], ignored)
                  then [Traversed(a[0].file, prefix + DirPrefix(a[0].dirs) + a[0].file.name)] else [],
                  Render(prefix, a[1..], ignored), Render(prefix, b, ignored));
    } else {
      assert a + b == b;
    }
  }

  /** Rendering leaves placed under a directory: nothing when the directory is
      ignored, otherwise the leaves rendered with the directory added to the
      prefix. */
  lemma {:induction false} RenderUnderDir(prefix: string, name: string, leaves: seq<Leaf>, ignored: seq<string>)
    ensures name in ignored ==> Render(prefix, UnderDir(name, leaves), ignored) == []
    ensures name !in ignored ==>
      Render(prefix, UnderDir(name, leaves), ignored) == Render(prefix + name + "/", leaves, ignored)
  {
    if leaves != [] {
      RenderUnderDir(prefix, name, leaves[1..], ignored);
      var l := leaves[0];
      var l' := Leaf([name] + l.dirs, l.file);
      assert UnderDir(name, leaves)[0] == l';
      assert UnderDir(name, leaves)[1..] == UnderDir(name, leaves[1..]);
      assert l'.dirs[0] == name;
      assert Visible(l', ignored) <==> name !in ignored && Visible(l, ignored) by {
        assert forall k :: 1 <= k < |l'.dirs| ==> l'.dirs[k] == l.dirs[k - 1];
        assert forall k :: 0 <= k < |l.dirs| ==> l.dirs[k] == l'.dirs[k + 1];
      }
      assert DirPrefix(l'.dirs) == name + "/" + DirPrefix(l.dirs) by {
        assert l'.dirs[1..] == l.dirs;
      }
      assert prefix + DirPrefix(l'.dirs) + l.file.name == prefix + name + "/" + DirPrefix(l.dirs) + l.file.name;
    }
  }

  /** The traversal returns, in depth-first child order, one record per file that
      has no ignored directory above it, with the prefix, the names of the
      directories above it each followed by `/`, and the file name as its path. */
  lemma {:induction false} TraverseSpec(entry: FsEntry, prefix: string, ignored: seq<string>)
    ensures Traverse(entry, prefix, ignored) == Render(prefix, Leaves(entry), ignored)
    decreases entry
  {
    match entry
    case FileNode(f) =>
      assert Leaves(entry) == [Leaf([], f)];
      assert prefix + DirPrefix([]) + f.name == prefix + f.name;
    case DirNode(name, children) =>
      RenderUnderDir(prefix, name, LeavesAll(children), ignored);
      if name !in ignored {
        TraverseAllSpec(children, prefix + name + "/", ignored);
      }
  }

  lemma {:induction false} TraverseAllSpec(entries: seq<FsEntry>, prefix: string, ignored: seq<string>)
    ensures TraverseAll(entries, prefix, ignored) == Render(prefix, LeavesAll(entries), ignored)
    decreases entries
  {
    if entries != [] {
      TraverseSpec(entries[0], prefix, ignored);
      TraverseAllSpec(entries[1..], prefix, ignored);
      RenderAppend(prefix, Leaves(entries[0]), LeavesAll(entries[1..]), ignored);
    }
  }

  /** With nothing ignored (the GraphVisualizer.js traversal) every file is
      returned: one record per leaf, in order, with its full path. */
  lemma {:induction false} RenderAll(prefix: string, leaves: seq<Leaf>)
    ensures |Render(prefix, leaves, [])| == |leaves|
    ensures forall k :: 0 <= k < |leaves| ==>
      Render(prefix, leaves, [])[k] == Traversed(leaves[k].file, prefix + DirPrefix(leaves[k].dirs) + leaves[k].file.name)
  {
    if leaves != [] {
      RenderAll(prefix, leaves[1..]);
      assert Visible(leaves[0], []);
    }
  }

  lemma TraverseWithoutIgnored(entry: FsEntry, prefix: string)
    ensures |Traverse(entry, prefix, [])| == |Leaves(entry)|
    ensures forall k :: 0 <= k < |Leaves(entry)| ==>
      Traverse(entry, prefix, [])[k]
        == Traversed(Leaves(entry)[k].file, prefix + DirPrefix(Leaves(entry)[k].dirs) + Leaves(entry)[k].file.name)
  {
    TraverseSpec(entry, prefix, []);
    RenderAll(prefix, Leaves(entry));
  }

  // ---------------------------------------------------------------------------
  // Dropped files lose their folder path

  /** As written, a dropped file is keyed by its bare name: two files `src/a.js`
      and `lib/a.js` dropped one after the other leave one entry, keyed `a.js`. */
  lemma DroppedPathLost()
    ensures var f := BrowserFile("a.js", "", 1);
      var first := AddFiles([], [Traversed(f, "src/a.js")]);
      && first == [MakeEntry(Traversed(f, "src/a.js"), AsWrittenPath)]
      && first[0].path == "a.js"
      && AddFiles(first, [Traversed(f, "lib/a.js")]) == first
  {
    var f := BrowserFile("a.js", "", 1);
    var t1, t2 := Traversed(f, "src/a.js"), Traversed(f, "lib/a.js");
    var e1, e2 := MakeEntry(t1, AsWrittenPath), MakeEntry(t2, AsWrittenPath);
    NamedJsAccepted(t1);
    SingleCandidate(t1, AsWrittenPath);
    assert PathsOf([]) == {};
    UnseenSingle(e1, {});
    var first := AddFiles([], [t1]);
    assert first == [e1];
    assert e1.path == "a.js" == e2.path;
    NamedJsAccepted(t2);
    SingleCandidate(t2, AsWrittenPath);
    assert e2.path in PathsOf(first) by { assert e1 in first; }
    UnseenSingle(e2, PathsOf(first));
    assert first + [] == first;
  }

  /** Keyed by the traversal path, a dropped accepted file whose path is new is
      always listed, under that path. */
  lemma DroppedPathKept(prev: seq<Entry>, batch: seq<Picked>)
    ensures forall f :: f in batch && f.Traversed? && Acceptable(f) && f.path !in PathsOf(prev) ==>
      exists e :: e in AddFilesFixed(prev, batch) && e.file == f && e.path == f.path
  {
    AddFilesSpec(prev, batch, IntendedPath);
    forall f | f in batch && f.Traversed? && Acceptable(f) && f.path !in PathsOf(prev)
      ensures exists e :: e in AddFilesFixed(prev, batch) && e.file == f && e.path == f.path
    {
      var e := MakeEntry(f, IntendedPath);
      var r := AddFilesFixed(prev, batch);
      assert e in r[|prev|..];
      assert e in r;
    }
  }
}
