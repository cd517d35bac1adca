/**
 * The state of the upload component in its two copies
 * (frontend/src/components/UploadSection.js and
 * frontend/src/components/GraphVisualizer.js): the selected `files` list, which
 * the file input and a drop extend, `removeFile` shrinks, and `handleUpload`
 * sends as one form part per entry. The copies differ in the folders a drop skips
 * and in what an upload with nothing selected does.
 */
module UploadComponent {
  import opened Options
  import opened FileSelection

  /** `formData.append("files", file, path)` */
  datatype FormPart = FormPart(file: Picked, filename: string)

  /** What `handleUpload` does: nothing, an `alert`, a POST of the form parts, or
      a `TypeError` from `formData.append` before any request is made, raised
      when an entry's `file` is a traversal record rather than a browser `File`. */
  datatype UploadAction = Ignored | Alert(message: string) | Post(parts: seq<FormPart>) | AppendRejected

  /** Which copy of the component. */
  datatype Variant = UploadSectionVariant | GraphVisualizerVariant
  {
    /** The folder names `traverseFileTree` skips. */
    function IgnoredFolders(): seq<string> {
      if UploadSectionVariant? then UploadSectionIgnored else []
    }

    /** `handleUpload` with an empty list. */
    function EmptyUpload(): UploadAction {
      if UploadSectionVariant? then Alert("Please select files or a folder before uploading.") else Ignored
    }
  }

  /** The records of the dropped items that have an entry, item by item. */
  function Dropped(items: seq<Option<FsEntry>>, ignored: seq<string>): seq<Picked> {
    if items == [] then []
    else
      var item := items[|items| - 1];
      Dropped(items[..|items| - 1], ignored) + (if item.Some? then Traverse(item.value, "", ignored) else [])
  }

  /** The position of the first dropped item with an entry, or the number of
      items when none has one. */
  function FirstEntry(items: seq<Option<FsEntry>>): (j: nat)
    ensures j <= |items|
    ensures forall k :: 0 <= k < j ==> items[k].None?
    ensures j < |items| ==> items[j].Some?
  {
    if items == [] then 0 else if items[0].Some? then 0 else FirstEntry(items[1..]) + 1
  }

  /** What the `for (const item of items)` loop of `handleDrop` collects in a
      browser: once the handler first awaits, the drop's item list is cut off from
      the drag data and reads as empty, so the loop ends after the first item with
      an entry. */
  function DroppedFirstOnly(items: seq<Option<FsEntry>>, ignored: seq<string>): seq<Picked> {
    var j := FirstEntry(items);
    if j < |items| then Dropped(items[..j + 1], ignored) else Dropped(items, ignored)
  }

  /** One form part per listed entry: the entry's file under the entry's path. */
  function FormParts(files: seq<Entry>): seq<FormPart> {
    if files == [] then [] else FormParts(files[..|files| - 1]) + [FormPart(files[|files| - 1].file, files[|files| - 1].path)]
  }

  class Uploader {
    const variant: Variant
    /** The `files` state. */
    var files: seq<Entry>

    constructor(variant: Variant)
      ensures this.variant == variant && files == []
    {
      this.variant := variant;
      files := [];
    }

    /** `addFiles(fileList)`, keying dropped files by their traversal path. */
    method AddFiles(batch: seq<Picked>)
      modifies this
      ensures files == AddFilesFixed(old(files), batch)
    {
      files := AddFilesFixed(files, batch);
    }

    /** `handleFileInput`: the input's files, if any, are added. */
    method HandleFileInput(selected: Option<seq<BrowserFile>>)
      modifies this
      ensures selected.None? ==> files == old(files)
      ensures selected.Some? ==> files == FileSelection.AddFiles(old(files), Natives(selected.value))
    {
      if selected.Some? {
        NativeBatchUnaffected(files, Natives(selected.value));
        AddFiles(Natives(selected.value));
      }
    }

    /** `removeFile(i)` */
    method RemoveFile(i: int)
      modifies this
      ensures files == RemoveAt(old(files), i)
    {
      files := RemoveAt(files, i);
    }

    /** `handleDrop` as evidently intended: without items nothing happens;
        otherwise the records of every item with an entry are collected in item
        order and added. In a browser the loop stops after the first item with an
        entry (see DroppedFirstOnly). */
    method HandleDrop(items: Option<seq<Option<FsEntry>>>)
      modifies this
      ensures items.None? ==> files == old(files)
      ensures items.Some? ==> files == AddFilesFixed(old(files), Dropped(items.value, variant.IgnoredFolders()))
    {
      if items.None? {
        return;
      }
      var entries := items.value;
      var allFiles: seq<Picked> := [];
      for k := 0 to |entries|
        invariant allFiles == Dropped(entries[..k], variant.IgnoredFolders())
      {
        assert entries[..k + 1][..k] == entries[..k];
        var entry := entries[k];
        if entry.Some? {
          var filesFromEntry := Traverse(entry.value, "", variant.IgnoredFolders());
          allFiles := allFiles + filesFromEntry;
        }
      }
      assert entries[..|entries|] == entries;
      AddFiles(allFiles);
    }

    /** `handleUpload`: with an empty list the copy's empty-list action and no
        request; otherwise one form part per entry, in list order, unless some
        entry came from a drop, whose traversal record `append` rejects. */
    method HandleUpload() returns (action: UploadAction)
      ensures files == [] ==> action == variant.EmptyUpload()
      ensures files != [] && AllNative(files) ==> action == Post(FormParts(files))
      ensures files != [] && !AllNative(files) ==> action == AppendRejected
      ensures action == UploadOutcome(variant, files)
    {
      if |files| == 0 {
        return variant.EmptyUpload();
      }
      var parts: seq<FormPart> := [];
      for k := 0 to |files|
        invariant parts == FormParts(files[..k])
        invariant AllNative(files[..k])
      {
        assert files[..k + 1][..k] == files[..k];
        if files[k].file.Traversed? {
          assert !AllNative(files) by { assert files[k] in files; }
          return AppendRejected;
        }
        parts := parts + [FormPart(files[k].file, files[k].path)];
        assert files[..k + 1] == files[..k] + [files[k]];
      }
      assert files[..|files|] == files;
      action := Post(parts);
    }
  }

  /** Every entry holds a browser `File`, which is what `formData.append` accepts
      with a file name. */
  predicate AllNative(files: seq<Entry>) {
    forall e :: e in files ==> e.file.Native?
  }

  /** What `handleUpload` does with the list `files`, as written. */
  function UploadOutcome(v: Variant, files: seq<Entry>): UploadAction {
    if files == [] then v.EmptyUpload()
    else if AllNative(files) then Post(FormParts(files))
    else AppendRejected
  }

  /** The browser `File` behind an entry: the file itself, or the one a traversal
      record carries. */
  function BlobOf(e: Entry): Picked {
    Native(e.file.file)
  }

  /** One form part per entry, appending the browser `File` behind it. */
  function BlobParts(files: seq<Entry>): seq<FormPart> {
    if files == [] then [] else BlobParts(files[..|files| - 1]) + [FormPart(BlobOf(files[|files| - 1]), files[|files| - 1].path)]
  }

  /** `handleUpload` appending `file.file` for a traversal record, as evidently
      intended. */
  function UploadOutcomeFixed(v: Variant, files: seq<Entry>): UploadAction {
    if files == [] then v.EmptyUpload() else Post(BlobParts(files))
  }

  /** The browser files of an input as `addFiles` receives them. */
  function Natives(selected: seq<BrowserFile>): (batch: seq<Picked>)
    ensures |batch| == |selected|
    ensures forall k :: 0 <= k < |selected| ==> batch[k] == Native(selected[k])
  {
    if selected == [] then [] else [Native(selected[0])] + Natives(selected[1..])
  }

  // ---------------------------------------------------------------------------
  // Properties

  /** For files from the file input the traversal-path key and the written key
      coincide, so the correction changes nothing there. */
  lemma {:induction false} NativeBatchUnaffected(prev: seq<Entry>, batch: seq<Picked>)
    requires forall k :: 0 <= k < |batch| ==> batch[k].Native?
    ensures AddFilesFixed(prev, batch) == AddFiles(prev, batch)
  {
    NativeCandidates(batch);
  }

  lemma {:induction false} NativeCandidates(batch: seq<Picked>)
    requires forall k :: 0 <= k < |batch| ==> batch[k].Native?
    ensures Candidates(batch, IntendedPath) == Candidates(batch, AsWrittenPath)
  {
    if batch != [] {
      NativeCandidates(batch[..|batch| - 1]);
    }
  }

  /** One form part per entry, carrying the entry's file under its path. */
  lemma {:induction false} FormPartsSpec(files: seq<Entry>)
    ensures |FormParts(files)| == |files|
    ensures forall k :: 0 <= k < |files| ==> FormParts(files)[k] == FormPart(files[k].file, files[k].path)
  {
    if files != [] {
      FormPartsSpec(files[..|files| - 1]);
    }
  }

  /** Only the UploadSection.js copy skips folders, and it skips exactly
      `node_modules`, `.git`, `dist` and `build`; only it alerts on an empty upload. */
  lemma VariantDifferences(v: Variant)
    ensures v.IgnoredFolders() == [] <==> v == GraphVisualizerVariant
    ensures v.EmptyUpload().Alert? <==> v == UploadSectionVariant
    ensures !v.EmptyUpload().Post?
  {
  }

  /** A dropped directory named like an ignored folder contributes nothing to the
      UploadSection.js list, however deep its files are. */
  lemma IgnoredFolderContributesNothing(prev: seq<Entry>, name: string, children: seq<FsEntry>)
    requires name in UploadSectionIgnored
    ensures AddFilesFixed(prev, Dropped([Some(DirNode(name, children))], UploadSectionVariant.IgnoredFolders())) == prev
  {
    var items := [Some(DirNode(name, children))];
    assert items[..0] == [];
    assert Dropped(items, UploadSectionIgnored) == [];
    assert prev + [] == prev;
  }

  /** As written, dropping a single accepted file and then uploading never sends
      a request: the list holds its traversal record, which `append` rejects. */
  lemma DroppedUploadRejected(v: Variant)
    ensures var f := BrowserFile("a.js", "", 1);
      var dropped := Dropped([Some(FileNode(f))], v.IgnoredFolders());
      UploadOutcome(v, AddFilesFixed([], dropped)) == AppendRejected
      && UploadOutcome(v, AddFiles([], dropped)) == AppendRejected
  {
    var f := BrowserFile("a.js", "", 1);
    var items := [Some(FileNode(f))];
    assert items[..0] == [];
    var dropped := Dropped(items, v.IgnoredFolders());
    assert "" + f.name == "a.js";
    assert Traverse(FileNode(f), "", v.IgnoredFolders()) == [Traversed(f, "a.js")];
    assert Dropped(items[..0], v.IgnoredFolders()) == [];
    assert dropped == Dropped(items[..0], v.IgnoredFolders()) + Traverse(FileNode(f), "", v.IgnoredFolders());
    assert dropped == [Traversed(f, "a.js")];
    var t := Traversed(f, "a.js");
    NamedJsAccepted(t);
    AddFilesSingle([], t, IntendedPath);
    AddFilesSingle([], t, AsWrittenPath);
    assert PathsOf([]) == {};
    assert AddFilesFixed([], dropped)[0].file == t;
    assert AddFiles([], dropped)[0].file == t;
  }

  /** Appending the `File` behind each entry, every non-empty list is posted, one
      part per entry in order, each carrying a browser `File` under the entry's
      path; on file-input entries this is exactly the upload as written. */
  lemma UploadFixedPosts(v: Variant, files: seq<Entry>)
    ensures files == [] ==> UploadOutcomeFixed(v, files) == v.EmptyUpload()
    ensures files != [] ==> UploadOutcomeFixed(v, files).Post?
    ensures |BlobParts(files)| == |files|
    ensures forall k :: 0 <= k < |files| ==>
      BlobParts(files)[k] == FormPart(Native(files[k].file.file), files[k].path)
    ensures AllNative(files) ==> UploadOutcomeFixed(v, files) == UploadOutcome(v, files)
  {
    BlobPartsSpec(files);
    if files != [] && AllNative(files) {
      FormPartsSpec(files);
      forall k | 0 <= k < |files| ensures BlobOf(files[k]) == files[k].file {
        assert files[k] in files;
      }
    }
  }

  lemma {:induction false} BlobPartsSpec(files: seq<Entry>)
    ensures |BlobParts(files)| == |files|
    ensures forall k :: 0 <= k < |files| ==>
      BlobParts(files)[k] == FormPart(Native(files[k].file.file), files[k].path)
  {
    if files != [] {
      BlobPartsSpec(files[..|files| - 1]);
    }
  }

  /** Items without an entry contribute nothing. */
  lemma {:induction false} DroppedNone(items: seq<Option<FsEntry>>, ignored: seq<string>)
    requires forall k :: 0 <= k < |items| ==> items[k].None?
    ensures Dropped(items, ignored) == []
  {
    if items != [] {
      DroppedNone(items[..|items| - 1], ignored);
    }
  }

  /** The records of a concatenation of item lists are the records of each part,
      in item order: every item with an entry contributes its whole traversal. */
  lemma {:induction false} DroppedAppend(a: seq<Option<FsEntry>>, b: seq<Option<FsEntry>>, ignored: seq<string>)
    ensures Dropped(a + b, ignored) == Dropped(a, ignored) + Dropped(b, ignored)
  {
    if b == [] {
      assert a + b == a;
    } else {
      DroppedAppend(a, b[..|b| - 1], ignored);
      assert (a + b)[..|a + b| - 1] == a + b[..|b| - 1];
      assert (a + b)[|a + b| - 1] == b[|b| - 1];
    }
  }

  /** As written, a drop yields exactly the traversal of its first item with an
      entry, or nothing when no item has one. */
  lemma DroppedFirstOnlySpec(items: seq<Option<FsEntry>>, ignored: seq<string>)
    ensures var j := FirstEntry(items);
      DroppedFirstOnly(items, ignored) == if j < |items| then Traverse(items[j].value, "", ignored) else []
  {
    var j := FirstEntry(items);
    if j < |items| {
      var upto := items[..j + 1];
      DroppedNone(upto[..j], ignored);
      assert upto[..j] == items[..j];
      assert Dropped(upto, ignored) == Dropped(upto[..j], ignored) + Traverse(items[j].value, "", ignored);
    } else {
      DroppedNone(items, ignored);
    }
  }

  /** Dropping the folders `src` and `lib` in one gesture: as written only the
      files of `src` are collected; as intended both folders' files are. */
  lemma SecondFolderLost(a: BrowserFile, b: BrowserFile)
    ensures var src := Some(DirNode("src", [FileNode(a)]));
      var lib := Some(DirNode("lib", [FileNode(b)]));
      && DroppedFirstOnly([src, lib], []) == [Traversed(a, "src/" + a.name)]
      && Dropped([src, lib], []) == [Traversed(a, "src/" + a.name), Traversed(b, "lib/" + b.name)]
  {
    var src := Some(DirNode("src", [FileNode(a)]));
    var lib := Some(DirNode("lib", [FileNode(b)]));
    assert Traverse(src.value, "", []) == [Traversed(a, "src/" + a.name)] by {
      assert "" + "src" + "/" == "src/";
      assert [FileNode(a)][1..] == [];
      assert TraverseAll([FileNode(a)], "src/", []) == [Traversed(a, "src/" + a.name)] + [];
    }
    assert Traverse(lib.value, "", []) == [Traversed(b, "lib/" + b.name)] by {
      assert "" + "lib" + "/" == "lib/";
      assert [FileNode(b)][1..] == [];
      assert TraverseAll([FileNode(b)], "lib/", []) == [Traversed(b, "lib/" + b.name)] + [];
    }
    DroppedFirstOnlySpec([src, lib], []);
    assert [src, lib] == [src] + [lib];
    DroppedAppend([src], [lib], []);
    assert [src][..0] == [] && [lib][..0] == [];
  }
}
