/**
 * The `/upload` handlers of the two backends. Each walks `req.files` in upload
 * order, drops a file whose `path.extname(originalname)` is not one of eight
 * allowed extensions, and for an accepted file appends one node
 * `{id: originalname, functions}` and one link per extracted name. The
 * backend/index.js handler also appends a bug report `{name, errors}` per file;
 * the backend/server.js handler answers with the graph only. An uploaded file is
 * given as its name and its text; reading and deleting the temporary file are
 * not modelled.
 */
module UploadRoute {
  import opened JsText
  import opened Paths
  import opened FunctionParser
  import opened BugDetector

  /** One entry of `req.files`: the client's file name and the file's text. */
  datatype UploadedFile = UploadedFile(originalname: string, content: string)

  datatype Node = Node(id: string, functions: seq<string>)
  datatype Link = Link(source: string, target: string)
  datatype FileReport = FileReport(name: string, errors: seq<Diagnostic>)
  datatype GraphData = GraphData(nodes: seq<Node>, links: seq<Link>)

  /** `{ graphData: { nodes, links }, bugData: { files } }` */
  datatype Response = Response(graphData: GraphData, bugFiles: seq<FileReport>)

  /** `allowedExtensions` */
  const AllowedExtensions: seq<string> := [".js", ".ts", ".jsx", ".tsx", ".py", ".java", ".c", ".cpp"]

  /** `allowedExtensions.includes(path.extname(file.originalname))` */
  predicate Accepts(f: UploadedFile) {
    Extname(f.originalname) in AllowedExtensions
  }

  function FileFunctions(f: UploadedFile): seq<string> {
    Names(Split(f.content, '\n'), FamilyOf(Extname(f.originalname)))
  }

  function FileErrors(f: UploadedFile): seq<Diagnostic> {
    Diagnostics(Split(f.content, '\n'), Extname(f.originalname))
  }

  /** One link from `source` to each name, in order. */
  function LinksTo(source: string, targets: seq<string>): seq<Link> {
    if targets == [] then []
    else LinksTo(source, targets[..|targets| - 1]) + [Link(source, targets[|targets| - 1])]
  }

  // What one file contributes to each list: nothing when it is rejected.

  function NodePart(f: UploadedFile): seq<Node> {
    if Accepts(f) then [Node(f.originalname, FileFunctions(f))] else []
  }

  function LinkPart(f: UploadedFile): seq<Link> {
    if Accepts(f) then LinksTo(f.originalname, FileFunctions(f)) else []
  }

  function ReportPart(f: UploadedFile): seq<FileReport> {
    if Accepts(f) then [FileReport(f.originalname, FileErrors(f))] else []
  }

  /** The contributions of `files`, concatenated in upload order. */
  function Collect<T>(files: seq<UploadedFile>, part: UploadedFile -> seq<T>): seq<T> {
    if files == [] then [] else Collect(files[..|files| - 1], part) + part(files[|files| - 1])
  }

  /** The nodes pushed for `files`. */
  function Nodes(files: seq<UploadedFile>): seq<Node> {
    Collect(files, NodePart)
  }

  /** The links pushed for `files`. */
  function Links(files: seq<UploadedFile>): seq<Link> {
    Collect(files, LinkPart)
  }

  /** The bug reports pushed for `files`. */
  function Reports(files: seq<UploadedFile>): seq<FileReport> {
    Collect(files, ReportPart)
  }

  /** One more file extends each list by what that file contributes. */
  lemma Step(files: seq<UploadedFile>, i: nat)
    requires i < |files|
    ensures Nodes(files[..i + 1]) == Nodes(files[..i]) + NodePart(files[i])
    ensures Links(files[..i + 1]) == Links(files[..i]) + LinkPart(files[i])
    ensures Reports(files[..i + 1]) == Reports(files[..i]) + ReportPart(files[i])
  {
    assert files[..i + 1][..i] == files[..i];
  }

  /** The backend/index.js handler. */
  method HandleUpload(files: seq<UploadedFile>) returns (response: Response)
    ensures response == Response(GraphData(Nodes(files), Links(files)), Reports(files))
  {
    var nodes: seq<Node> := [];
    var links: seq<Link> := [];
    var bugFiles: seq<FileReport> := [];
    for i := 0 to |files|
      invariant nodes == Nodes(files[..i])
      invariant links == Links(files[..i])
      invariant bugFiles == Reports(files[..i])
    {
      var file := files[i];
      Step(files, i);
      var ext := Extname(file.originalname);
      if ext in AllowedExtensions {
        var functions := ParseFunctions(file.content, ext);
        var errors := DetectBugs(file.content, ext);
        nodes := nodes + [Node(file.originalname, functions)];
        links := PushLinks(links, file.originalname, functions);
        bugFiles := bugFiles + [FileReport(file.originalname, errors)];
      }
    }
    assert files[..|files|] == files;
    response := Response(GraphData(nodes, links), bugFiles);
  }

  /** The backend/server.js handler: the same walk without bug reports. */
  method HandleGraphUpload(files: seq<UploadedFile>) returns (graphData: GraphData)
    ensures graphData == GraphData(Nodes(files), Links(files))
  {
    var nodes: seq<Node> := [];
    var links: seq<Link> := [];
    for i := 0 to |files|
      invariant nodes == Nodes(files[..i])
      invariant links == Links(files[..i])
    {
      var file := files[i];
      Step(files, i);
      var ext := Extname(file.originalname);
      if ext in AllowedExtensions {
        var functions := ParseFunctions(file.content, ext);
        nodes := nodes + [Node(file.originalname, functions)];
        links := PushLinks(links, file.originalname, functions);
      }
    }
    assert files[..|files|] == files;
    graphData := GraphData(nodes, links);
  }

  /** `functions.forEach((fn) => links.push({ source, target: fn }))` */
  method PushLinks(links: seq<Link>, source: string, functions: seq<string>) returns (result: seq<Link>)
    ensures result == links + LinksTo(source, functions)
  {
    result := links;
    for k := 0 to |functions|
      invariant result == links + LinksTo(source, functions[..k])
    {
      assert functions[..k + 1][..k] == functions[..k];
      result := result + [Link(source, functions[k])];
    }
    assert functions[..|functions|] == functions;
  }

  // ---------------------------------------------------------------------------
  // Properties

  function AcceptedPart(f: UploadedFile): seq<UploadedFile> {
    if Accepts(f) then [f] else []
  }

  /** The accepted files, in upload order. */
  function Accepted(files: seq<UploadedFile>): seq<UploadedFile> {
    Collect(files, AcceptedPart)
  }

  /** The links of a node list: each node's links in node order. */
  function NodeLinks(nodes: seq<Node>): seq<Link> {
    if nodes == [] then []
    else NodeLinks(nodes[..|nodes| - 1]) + LinksTo(nodes[|nodes| - 1].id, nodes[|nodes| - 1].functions)
  }

  /** The total number of function names over a node list. */
  function FunctionCount(nodes: seq<Node>): nat {
    if nodes == [] then 0 else FunctionCount(nodes[..|nodes| - 1]) + |nodes[|nodes| - 1].functions|
  }

  /** Each name gets exactly one link from `source`, in order; targets are the
      names themselves. */
  lemma {:induction false} LinksToSpec(source: string, targets: seq<string>)
    ensures |LinksTo(source, targets)| == |targets|
    ensures forall k :: 0 <= k < |targets| ==> LinksTo(source, targets)[k] == Link(source, targets[k])
  {
    if targets != [] {
      LinksToSpec(source, targets[..|targets| - 1]);
    }
  }

  /** A list whose part for a file is one value exactly when the file is accepted
      holds one value per accepted file, in upload order. */
  lemma {:induction false} CollectPerAccepted<T>(files: seq<UploadedFile>, part: UploadedFile -> seq<T>, value: UploadedFile -> T)
    requires forall f :: part(f) == if Accepts(f) then [value(f)] else []
    ensures |Collect(files, part)| == |Accepted(files)|
    ensures forall k :: 0 <= k < |Accepted(files)| ==> Collect(files, part)[k] == value(Accepted(files)[k])
  {
    if files != [] {
      var init := files[..|files| - 1];
      var f := files[|files| - 1];
      CollectPerAccepted(init, part, value);
      assert Collect(files, part) == Collect(init, part) + part(f);
      assert Accepted(files) == Accepted(init) + AcceptedPart(f);
    }
  }

  /** There is exactly one node and one bug report per accepted file, in upload
      order; so the two lists have equal length and the same names position by
      position. */
  lemma NodesAndReports(files: seq<UploadedFile>)
    ensures |Nodes(files)| == |Reports(files)| == |Accepted(files)|
    ensures forall k :: 0 <= k < |Accepted(files)| ==>
      && Nodes(files)[k] == Node(Accepted(files)[k].originalname, FileFunctions(Accepted(files)[k]))
      && Reports(files)[k] == FileReport(Accepted(files)[k].originalname, FileErrors(Accepted(files)[k]))
      && Nodes(files)[k].id == Reports(files)[k].name
  {
    CollectPerAccepted(files, NodePart, (f: UploadedFile) => Node(f.originalname, FileFunctions(f)));
    CollectPerAccepted(files, ReportPart, (f: UploadedFile) => FileReport(f.originalname, FileErrors(f)));
  }

  lemma NodeLinksPush(ns: seq<Node>, n: Node)
    ensures NodeLinks(ns + [n]) == NodeLinks(ns) + LinksTo(n.id, n.functions)
    ensures FunctionCount(ns + [n]) == FunctionCount(ns) + |n.functions|
  {
    assert (ns + [n])[..|ns|] == ns;
  }

  /** The links are, node by node, one link from the node's id to each of its
      function names; so there are as many links as function names. */
  lemma {:induction false} LinksFollowNodes(files: seq<UploadedFile>)
    ensures Links(files) == NodeLinks(Nodes(files))
    ensures |Links(files)| == FunctionCount(Nodes(files))
  {
    if files != [] {
      var init := files[..|files| - 1];
      var f := files[|files| - 1];
      LinksFollowNodes(init);
      assert Nodes(files) == Nodes(init) + NodePart(f);
      assert Links(files) == Links(init) + LinkPart(f);
      if Accepts(f) {
        NodeLinksPush(Nodes(init), Node(f.originalname, FileFunctions(f)));
        LinksToSpec(f.originalname, FileFunctions(f));
      } else {
        assert Nodes(init) + NodePart(f) == Nodes(init);
        assert Links(init) + LinkPart(f) == Links(init);
      }
    }
  }

  /** Collecting over two uploads one after the other is concatenating. */
  lemma {:induction false} CollectAppend<T>(a: seq<UploadedFile>, b: seq<UploadedFile>, part: UploadedFile -> seq<T>)
    ensures Collect(a + b, part) == Collect(a, part) + Collect(b, part)
  {
    if b != [] {
      var b' := b[..|b| - 1];
      assert (a + b)[..|a + b| - 1] == a + b';
      assert (a + b)[|a + b| - 1] == b[|b| - 1];
      CollectAppend(a, b', part);
      assert Collect(a + b, part) == Collect(a + b', part) + part(b[|b| - 1]);
      assert Collect(b, part) == Collect(b', part) + part(b[|b| - 1]);
      ConcatAssoc(Collect(a, part), Collect(b', part), part(b[|b| - 1]));
    } else {
      assert a + b == a;
    }
  }

  /** A file contributing nothing can be dropped from anywhere in the upload. */
  lemma CollectSkip<T>(before: seq<UploadedFile>, f: UploadedFile, after: seq<UploadedFile>, part: UploadedFile -> seq<T>)
    requires part(f) == []
    ensures Collect(before + [f] + after, part) == Collect(before + after, part)
  {
    CollectAppend(before + [f], after, part);
    CollectAppend(before, [f], part);
    CollectAppend(before, after, part);
    assert Collect([f], part) == Collect([], part) + part(f) by { assert [f][..0] == []; }
  }

  /** A file whose extension is not allowed changes nothing, wherever it is in the
      upload: no node, no link, no bug report. */
  lemma RejectedFileIgnored(before: seq<UploadedFile>, f: UploadedFile, after: seq<UploadedFile>)
    requires !Accepts(f)
    ensures Nodes(before + [f] + after) == Nodes(before + after)
    ensures Links(before + [f] + after) == Links(before + after)
    ensures Reports(before + [f] + after) == Reports(before + after)
  {
    CollectSkip(before, f, after, NodePart);
    CollectSkip(before, f, after, LinkPart);
    CollectSkip(before, f, after, ReportPart);
  }

  /** An uploaded name made of a non-empty stem and one of the allowed extensions is
      accepted, whatever its content; the test is case-sensitive, so an upper-case
      extension such as `.JS` is not in the list. */
  lemma AllowedNameAccepted(stem: string, ext: string, content: string)
    requires ext in AllowedExtensions
    requires stem != [] && stem[|stem| - 1] != '/'
    ensures Accepts(UploadedFile(stem + ext, content))
    ensures ".JS" !in AllowedExtensions
  {
    AllowedIsExtension(ext);
    ExtnameOf(stem, ext);
  }

  lemma AllowedIsExtension(ext: string)
    requires ext in AllowedExtensions
    ensures IsExtension(ext) && |ext| >= 2
  {
    var k :| 0 <= k < |AllowedExtensions| && AllowedExtensions[k] == ext;
  }
}
