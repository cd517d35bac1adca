/**
 * frontend/src/app/upload/page.js: `handleFiles` keeps the JS/TS files of a
 * selection, pairs each with `webkitRelativePath || name`, and the result
 * replaces the previous selection; `handleUpload` sends nothing when the
 * selection is empty.
 */
module UploadPage {
  import opened Options
  import opened JsText
  import opened Paths
  import opened FileSelection
  import opened UploadRoute

  /** `{ file, path }` */
  datatype PageEntry = PageEntry(file: BrowserFile, path: string)

  /** The extensions `handleFiles` keeps. */
  const PageExtensions: seq<string> := [".js", ".ts", ".jsx", ".tsx"]

  /** `file.webkitRelativePath || file.name` */
  function PagePath(f: BrowserFile): string {
    if f.webkitRelativePath != "" then f.webkitRelativePath else f.name
  }

  /** `handleFiles(fileList)`: the new selection, which replaces the old one. */
  function HandleFiles(fileList: seq<BrowserFile>): seq<PageEntry> {
    if fileList == [] then []
    else
      var f := fileList[|fileList| - 1];
      HandleFiles(fileList[..|fileList| - 1])
      + (if EndsWithAny(f.name, PageExtensions) then [PageEntry(f, PagePath(f))] else [])
  }

  /** `handleUpload`: no request for an empty selection, otherwise one
      `(file, path)` part per entry. */
  function PageUpload(files: seq<PageEntry>): (request: Option<seq<PageEntry>>)
    ensures request.None? <==> files == []
    ensures request.Some? ==> request.value == files
  {
    if |files| == 0 then None else Some(files)
  }

  // ---------------------------------------------------------------------------
  // Properties

  /** A selection made of two parts is the selection of the first part followed by
      that of the second: `handleFiles` works file by file and keeps input order. */
  lemma {:induction false} HandleFilesAppend(a: seq<BrowserFile>, b: seq<BrowserFile>)
    ensures HandleFiles(a + b) == HandleFiles(a) + HandleFiles(b)
  {
    if b != [] {
      var b' := b[..|b| - 1];
      assert (a + b)[..|a + b| - 1] == a + b';
      assert (a + b)[|a + b| - 1] == b[|b| - 1];
      HandleFilesAppend(a, b');
      var last := b[|b| - 1];
      ConcatAssoc(HandleFiles(a), HandleFiles(b'),
                  if EndsWithAny(last.name, PageExtensions) then [PageEntry(last, PagePath(last))] else []);
    } else {
      assert a + b == a;
    }
  }

  /** The kept entries are exactly the selected files whose name ends with a JS/TS
      extension, each paired with its relative path or, without one, its name. */
  lemma {:induction false} HandleFilesSpec(fileList: seq<BrowserFile>)
    ensures |HandleFiles(fileList)| <= |fileList|
    ensures forall e :: e in HandleFiles(fileList) <==>
      e.file in fileList && EndsWithAny(e.file.name, PageExtensions) && e.path == PagePath(e.file)
  {
    if fileList != [] {
      var init := fileList[..|fileList| - 1];
      HandleFilesSpec(init);
      assert fileList == init + [fileList[|fileList| - 1]];
    }
  }

  /** Every file the page keeps would also be kept by the upload components. */
  lemma PageSubsetOfComponents(name: string)
    requires EndsWithAny(name, PageExtensions)
    ensures EndsWithAny(name, AcceptedExtensions)
  {
    EndsWithAnySpec(name, PageExtensions);
    EndsWithAnySpec(name, AcceptedExtensions);
    var k :| 0 <= k < |PageExtensions| && EndsWith(name, PageExtensions[k]);
    assert PageExtensions[k] == AcceptedExtensions[k];
  }

  /** A kept file whose name has something before the extension (other than a
      `/`) is accepted by the backend's `path.extname` filter. The page sends the
      file under `PagePath(f)`; its file input has no `webkitdirectory`, so the
      browser gives it an empty relative path and `PagePath(f)` is the name. */
  lemma PageFileAcceptedByBackend(f: BrowserFile, content: string, e: string)
    requires e in PageExtensions && EndsWith(f.name, e)
    requires |f.name| > |e| && f.name[|f.name| - |e| - 1] != '/'
    ensures Accepts(UploadedFile(f.name, content))
    ensures f.webkitRelativePath == "" ==> Accepts(UploadedFile(PagePath(f), content))
  {
    var stem := f.name[..|f.name| - |e|];
    assert f.name == stem + e;
    assert e in AllowedExtensions;
    AllowedNameAccepted(stem, e, content);
  }
}
