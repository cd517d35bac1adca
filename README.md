# LinkTrace upload and analysis core, in Dafny

LinkTrace takes a batch of source files (JavaScript/TypeScript, Python, Java, C/C++),
draws a graph from each file to the functions it declares, and reports simple
line-level bugs. This project models the parts of the repository that do that work:

- the Express backends (`backend/index.js` and its graph-only sibling
  `backend/server.js`). Both filter uploads by `path.extname` and find function
  names with four regular expressions. `index.js` also flags TODO comments,
  `console.log`, bare imports, missing semicolons and long lines, and builds the
  `{ graphData: { nodes, links }, bugData: { files } }` reply; `server.js`
  replies `{ graphData }` only;
- the upload components on the browser side (`UploadSection.js` and its copy
  `GraphVisualizer.js`). They merge selections by path, walk dropped folders,
  remove entries and build the form parts;
- the simpler upload page (`app/upload/page.js`);
- the bug-check panel (`BugChecker.js`), which turns the backend's reply into a
  verdict and a log.

Modules, leaves first:

| module | file | models |
|---|---|---|
| `Options` | options.dfy | an optional value |
| `JsText` | js_text.dfy | the JavaScript string operations the code relies on: `trim`, `indexOf`, `split`, `join`, `startsWith`, `endsWith`, `includes`, `toLowerCase`, UTF-16 `length`, template-literal numbers |
| `Patterns` | patterns.dfy | the four function-finding regular expressions, as matchers proved equal to a declarative reading |
| `Paths` | paths.dfy | `path.extname` (POSIX) |
| `FunctionParser` | function_parser.dfy | `parseFunctions` |
| `BugDetector` | bug_detector.dfy | `detectBugs` |
| `UploadRoute` | upload_route.dfy | the two `/upload` handlers |
| `FileSelection` | file_selection.dfy | `addFiles`, `removeFile`, `traverseFileTree` |
| `UploadComponent` | upload_component.dfy | the component state (`files`) and its handlers |
| `UploadPage` | upload_page.dfy | `handleFiles` and the upload guard of the page |
| `BugChecker` | bug_checker.dfy | `handleCheck` |

File contents, multer's upload records, the browser's `File` objects, drop
items and the server's reply become parameters. Loops in the source become
methods with loop invariants, each proved equal to a specification function.
Those methods are `ParseJsLines`, `ParsePythonLines`, `ParseRegexLines`
(which `ParseFunctions` dispatches to), `DetectBugs`, `UploadRoute.HandleUpload`,
`HandleGraphUpload`, `PushLinks`, `Uploader.HandleDrop`, `Uploader.HandleUpload`,
`BuildLog` and `FileLog`. `AllHaveErrorsCheck` is a loop the source does not
write out: it decides whether some file lacks `errors`. Reading `f.errors.length`
then throws, in the `some` callback at BugChecker.js line 33 or, when `some`
stops early at a file with errors, in the `forEach` at line 38; the catch at
line 50 then sets the unreachable-server state. The specification functions' properties are
proved as lemmas. The React state of the upload component (`files`) and of the
bug checker (`result`, `errorLog`) are fields of classes whose methods update them.

## Model

| member | source | states |
|---|---|---|
| JsText.Utf16Length | backend/index.js:97 | `line.length` counts UTF-16 units: between the number of characters and twice it, equal to it when every character is in the Basic Multilingual Plane |
| JsText.Utf16LengthAppend | backend/index.js:104 | the length of a concatenation is the sum of the lengths |
| JsText.SpaceRunEnd | backend/index.js:26 | the run of white space from a position ends at the end of the text or before a character that is not white space |
| JsText.SpaceRunStart | backend/index.js:26 | the run of white space up to a position starts at the beginning of the text or after a character that is not white space |
| JsText.TrimStart | backend/index.js:26 | the result is a suffix of the input, all that was cut is white space, and it does not start with white space |
| JsText.TrimEnd | backend/index.js:26 | the result is a prefix of the input, all that was cut is white space, and it does not end with white space |
| JsText.TrimShape | backend/index.js:26 | `trim()` returns a contiguous middle part of the input that neither starts nor ends with white space |
| JsText.TrimIdempotent | backend/index.js:94 | trimming twice is trimming once |
| JsText.PrefixChar | backend/index.js:84 | a string starting with `p` has `p`'s characters at `p`'s positions |
| JsText.IndexOfFrom | backend/index.js:77 | the result is -1 when nothing occurs at or after `from`; otherwise it is the first occurrence at or after `from` |
| JsText.IndexOf | backend/index.js:77 | `indexOf` is -1 exactly when the text does not occur; otherwise it is the position of the first occurrence |
| JsText.Split | backend/index.js:21 | `split` always yields at least one piece |
| JsText.CountCharZero | backend/index.js:21 | a string has no separator exactly when no character equals it |
| JsText.JoinSplit | backend/index.js:21 | joining the pieces of `split` with the separator gives back the string |
| JsText.SplitPieces | backend/index.js:57 | there is one piece more than there are separators, and no piece contains the separator |
| JsText.SplitFirst | backend/index.js:35 | the first piece is what precedes the first separator |
| JsText.SplitSecond | backend/index.js:35 | when there is a separator, the second piece is the first piece of the rest after it |
| JsText.EndsWithSeparator | frontend/src/components/UploadSection.js:41 | a string ending with the separator and then `l` has that separator right before `l` |
| JsText.LastPieceShape | frontend/src/components/UploadSection.js:41 | `split(".").pop()` holds no dot and is the whole name or what follows its last dot |
| JsText.ToLowerAscii | frontend/src/components/UploadSection.js:41 | each ASCII capital becomes its lower-case letter, every other character is kept, and the length is unchanged |
| JsText.NatToString | frontend/src/components/BugChecker.js:41 | the decimal text of a number is non-empty, all digits, denotes exactly that number, and has no leading zero unless the number is 0 |
| Patterns.SkipSpace | backend/index.js:27 | the end of the maximal run of `\s` |
| Patterns.SkipWord | backend/index.js:27 | the end of the maximal run of `\w` |
| Patterns.FirstSomeSpec | backend/index.js:27 | the left-to-right search reports no match exactly when no position matches; otherwise it reports the match at the first position that matches |
| Patterns.SpacesEnd | backend/index.js:27 | a maximal run of spaces ends where `SkipSpace` says |
| Patterns.WordEnd | backend/index.js:27 | a maximal run of word characters ends where `SkipWord` says |
| Patterns.SpacesBeforeNonSpace | backend/index.js:29 | a run of spaces that a word character, `(`, `=` or `{` follows is maximal |
| Patterns.CloseParenThenSound | backend/index.js:29 | whenever the `.*\)\s*` search succeeds, some `)` on the line is followed by spaces and the tail |
| Patterns.CloseParenThenComplete | backend/index.js:29 | every `)` reachable on the line and followed by spaces and the tail makes the search succeed |
| Patterns.CloseParenThenExact | backend/index.js:29 | the `.*\)\s*` search finds the tail exactly when some `)` on the line is followed by spaces and the tail |
| Patterns.JavaTailExact | backend/index.js:39 | the matcher for `\s+\w+\s+(\w+)\s*\(` captures `name` exactly when the declarative reading does |
| Patterns.JavaTailComplete | backend/index.js:39 | every decomposition of `\s+\w+\s+(\w+)\s*\(` is the one the matcher finds |
| Patterns.FunctionDeclExact | backend/index.js:27 | `function\s+(\w+)\s*\(` matches at a position with capture `name` exactly when the declarative reading does |
| Patterns.FunctionDeclComplete | backend/index.js:27 | every decomposition of `function\s+(\w+)\s*\(` is the one the matcher finds |
| Patterns.ArrowConstSound | backend/index.js:29 | every capture of `const\s+(\w+)\s*=\s*\(.*\)\s*=>` fits the declarative reading |
| Patterns.ArrowConstComplete | backend/index.js:29 | every decomposition in the declarative reading is found by the matcher |
| Patterns.ArrowHeadEnds | backend/index.js:29 | in every decomposition of `const\s+(\w+)\s*=\s*\(` each run ends where the matcher stops it |
| Patterns.ArrowConstExact | backend/index.js:29 | the arrow-function pattern matches with capture `name` exactly when the declarative reading does |
| Patterns.NoJavaTailAtLetter | backend/index.js:39 | the Java pattern's branch that skips the optional modifier cannot start at a keyword letter |
| Patterns.JavaMethodExact | backend/index.js:39 | the Java method pattern matches with capture `name` exactly when the declarative reading does |
| Patterns.CFunctionSound | backend/index.js:44 | every capture of `(\w+)\s+(\w+)\s*\(.*\)\s*\{` fits the declarative reading |
| Patterns.CFunctionComplete | backend/index.js:44 | every decomposition in the declarative reading is found by the matcher |
| Patterns.CFunctionExact | backend/index.js:44 | the C function pattern matches with capture `name` exactly when the declarative reading does |
| Patterns.MatchAtExact | backend/index.js:27-44 | for each of the four patterns, the matcher's capture at a position is exactly the declarative one, so it is unique |
| Patterns.WordSlice | backend/index.js:27 | a run of word characters is a non-empty identifier from the text |
| Patterns.JavaTailIdentifier | backend/index.js:39 | the Java tail's capture is an identifier taken from the line |
| Patterns.FunctionDeclIdentifier | backend/index.js:27 | the `function` capture is an identifier taken from the line |
| Patterns.ArrowConstIdentifier | backend/index.js:29 | the arrow-function capture is an identifier taken from the line |
| Patterns.JavaMethodIdentifier | backend/index.js:39 | the Java method capture is an identifier taken from the line |
| Patterns.CFunctionIdentifier | backend/index.js:44 | the C function capture is an identifier taken from the line |
| Patterns.CaptureIsIdentifier | backend/index.js:28 | every captured name is a non-empty `\w+` identifier taken from the line |
| Patterns.FirstMatchSpec | backend/index.js:27-45 | `line.match(re)` fails exactly when no position matches; otherwise its capture comes from the leftmost matching position and is an identifier |
| FunctionParser.Captured | backend/index.js:28 | `if (match) push(match[k])` pushes at most one name |
| FunctionParser.FamilyOf | backend/index.js:24-47 | the JS/TS rule applies exactly to `.js`, `.ts`, `.jsx` and `.tsx`, the Python rule to `.py`, the Java rule to `.java`, the C rule to `.c` and `.cpp` |
| FunctionParser.DefWords | backend/index.js:35 | a line starting with `def ` splits on spaces into at least two words, the second being what follows `def ` up to the next space |
| FunctionParser.PythonNameShape | backend/index.js:35 | the Python name is a prefix of the text after `def ` and holds no space and no `(` |
| FunctionParser.ParseFunctions | backend/index.js:19-50 | `parseFunctions` returns the names of the lines in line order: JS/TS, Python, Java or C/C++ rules by extension, none for any other extension (backend/server.js lines 17-48 hold an identical copy) |
| FunctionParser.ParseJsLines | backend/index.js:24-31 | each trimmed line pushes its `function NAME(` capture, then its `const NAME = (...) =>` capture |
| FunctionParser.JsLine | backend/index.js:25-31 | one JS/TS line pushes exactly its names, the `function` capture before the arrow capture |
| FunctionParser.ParsePythonLines | backend/index.js:32-36 | each trimmed line starting with `def ` pushes its name |
| FunctionParser.ParseRegexLines | backend/index.js:37-46 | each untrimmed line pushes the Java (or C/C++) capture when the pattern matches |
| FunctionParser.CapturedIdentifier | backend/index.js:40 | every pushed capture is an identifier from the line |
| FunctionParser.LineNamesSpec | backend/index.js:24-46 | a line gives at most two names for JS/TS and one for the other families, and each has the family's shape |
| FunctionParser.NamesBound | backend/index.js:19-50 | the list has at most that limit times the number of lines, and is empty for an unknown extension |
| FunctionParser.NamesFromLines | backend/index.js:19-50 | every name comes from some line of the file and has that family's shape |
| FunctionParser.PythonNameCount | backend/index.js:32-36 | a Python file gives exactly one name per line whose trimmed text starts with `def ` |
| BugDetector.DetectBugs | backend/index.js:55-115 | `detectBugs` returns, line by line, the diagnostics of the five rules in rule order |
| BugDetector.CheckLine | backend/index.js:60-112 | one `forEach` callback pushes exactly that line's diagnostics, in rule order |
| BugDetector.OrderedAppend | backend/index.js:60 | two ordered lists, the first wholly before the second, stay ordered when joined |
| BugDetector.OrderedPush | backend/index.js:64-111 | pushing a rule's diagnostic after those of earlier rules on the same line keeps the list ordered |
| BugDetector.LineDiagnosticsOrdered | backend/index.js:64-111 | a line gives at most five diagnostics, all carrying its line number, in rule order |
| BugDetector.DiagnosticsOrdered | backend/index.js:60-61 | line numbers are 1-based and within the file, and the list is ordered by line and then by rule |
| BugDetector.NonJsRules | backend/index.js:74-94 | outside JS/TS only `todo-comment` and `max-len` are reported |
| BugDetector.SemicolonTestRedundant | backend/index.js:94 | the `!endsWith(");")` test never changes the outcome: the rule fires exactly when the trimmed line ends with `)` in a JS/TS file |
| BugDetector.InLine | backend/index.js:64-111 | a diagnostic belongs to a line's list exactly when it is one of the five rule parts |
| BugDetector.HasRuleOfPart | backend/index.js:64-111 | a line reports a rule exactly when that rule's part is non-empty |
| BugDetector.LineRules | backend/index.js:64-111 | each rule fires exactly under its test: TODO or FIXME; JS/TS and `console.log`; JS/TS, starts with `import` and has no `from`; JS/TS and the trimmed line ends with `)`; longer than 120 UTF-16 units |
| BugDetector.LineColumns | backend/index.js:67-107 | columns are 0 for TODO and import, the UTF-16 offset of the first `console.log`, the line's UTF-16 length for a missing semicolon, and 120 for a long line |
| BugDetector.DiagnosticsOfLine | backend/index.js:60-61 | the diagnostics with line number `n` are exactly those of the `n`-th line |
| BugDetector.DiagnosticsBound | backend/index.js:60-112 | a file gives at most five diagnostics per line |
| Paths.LastIndexOfChar | backend/index.js:126 | the result is -1 exactly when the character is absent; otherwise it is the position of its last occurrence |
| Paths.LastIndexAppend | backend/index.js:126 | the last occurrence in a concatenation is in the second part if there is one there, and otherwise in the first |
| Paths.LastIndexBefore | backend/index.js:126 | the last occurrence before a position: -1 when there is none, and nothing matches after it |
| Paths.StripTrailingSlashes | backend/index.js:126 | removes exactly the trailing run of `/` |
| Paths.SlashRunStart | backend/index.js:126 | the run of `/` up to a position starts at the beginning or after a character other than `/` |
| Paths.BasenameShape | backend/index.js:126 | the last segment ends the slash-stripped path and holds no `/` |
| Paths.ExtensionFromLastDot | backend/index.js:126 | from the last dot of a segment to its end is an extension |
| Paths.ExtnameShape | backend/index.js:126 | `extname` is `""` or a dot-led extension that ends the last segment, after a non-empty stem |
| Paths.SegmentExtension | backend/index.js:126 | from a last dot after the first character of the last segment on is an extension that ends the path, after a character of that segment |
| Paths.NoTrailingSlash | backend/index.js:126 | a path not ending in `/` is not shortened |
| Paths.BasenameExtend | backend/index.js:126 | extending a path by text without `/` extends its last segment |
| Paths.BasenameAfterDir | backend/index.js:126 | after a directory prefix, a name without `/` is the last segment |
| Paths.ExtnameOf | backend/index.js:126 | a non-empty stem followed by an extension has exactly that extension |
| Paths.DotFileHasNoExtension | backend/index.js:126 | a dot-file such as `.js` has no extension |
| UploadRoute.Step | backend/index.js:125-147 | one more file extends the nodes, links and reports by exactly that file's part |
| UploadRoute.HandleUpload | backend/index.js:120-153 | the reply holds the nodes, links and reports of the accepted files, in upload order |
| UploadRoute.HandleGraphUpload | backend/server.js:50-72 | the graph-only reply holds the same nodes and links |
| UploadRoute.PushLinks | backend/index.js:138-140 | one link from the file to each of its function names is appended, in order |
| UploadRoute.LinksToSpec | backend/index.js:138-140 | there is one link per name, from the file to that name, in order |
| UploadRoute.CollectPerAccepted | backend/index.js:127 | a per-file part holding one value exactly for accepted files gives one value per accepted file, in order |
| UploadRoute.NodesAndReports | backend/index.js:132-146 | there is exactly one node and one report per accepted file, in order; each node and report is named after its file and holds its functions and errors |
| UploadRoute.NodeLinksPush | backend/index.js:138-140 | adding a node adds its links and its function count |
| UploadRoute.LinksFollowNodes | backend/index.js:132-140 | the links are, node by node, one per function name of the node, so there are as many links as names |
| UploadRoute.CollectAppend | backend/index.js:125 | processing two batches one after the other concatenates their results |
| UploadRoute.CollectSkip | backend/index.js:127 | a file that contributes nothing can be dropped from anywhere in the batch |
| UploadRoute.RejectedFileIgnored | backend/index.js:126-127 | a file with an extension that is not allowed changes neither nodes, links nor reports |
| UploadRoute.AllowedNameAccepted | backend/index.js:14 | a non-empty stem with an allowed extension is accepted; `.JS` is not allowed (the test is case-sensitive) |
| FileSelection.EndsWithAnySpec | frontend/src/components/UploadSection.js:35 | `some(ext => name.endsWith(ext))` holds exactly when some extension ends the name |
| FileSelection.CandidatesSpec | frontend/src/components/UploadSection.js:34-42 | `newFiles` holds exactly the accepted files of the batch, each as its derived entry, and no more entries than files |
| FileSelection.CandidatesAppend | frontend/src/components/UploadSection.js:34-42 | the batch is converted file by file: the entries of a concatenation are those of its parts, in batch order |
| FileSelection.UnseenSpec | frontend/src/components/UploadSection.js:46 | the filter keeps exactly the entries whose path is not already listed, each as many times as it occurs, and drops every occurrence of the others |
| FileSelection.UnseenAppend | frontend/src/components/UploadSection.js:46 | the filter works entry by entry: filtering a concatenation concatenates the filtered parts, so input order is kept |
| FileSelection.UnseenNoneSeen | frontend/src/components/UploadSection.js:46 | against an empty list nothing is filtered out and the order is kept |
| FileSelection.UnseenSingle | frontend/src/components/UploadSection.js:46 | a single entry is kept exactly when its path is not listed |
| FileSelection.SingleCandidate | frontend/src/components/UploadSection.js:34-42 | a batch of one file gives that file's entry when it is accepted and nothing otherwise |
| FileSelection.AddFilesSpec | frontend/src/components/UploadSection.js:44-47 | the previous list is kept as a prefix; what is appended is exactly the new entries whose path was not listed, each as often as the batch yields it; the list grows by at most the batch |
| FileSelection.AddFilesSingle | frontend/src/components/UploadSection.js:33-48 | one file is appended exactly when it is accepted and its path is not listed |
| FileSelection.AddFilesBatchOrder | frontend/src/components/UploadSection.js:44-47 | a batch is appended in its own order, and each part of it is checked only against the previous list; with AddFilesSingle this fixes the appended part file by file |
| FileSelection.CandidatePathsListed | frontend/src/components/UploadSection.js:44-47 | after adding, every accepted file's path is listed |
| FileSelection.UnseenAllSeen | frontend/src/components/UploadSection.js:46 | entries whose paths are all listed are all filtered out |
| FileSelection.AddFilesIdempotent | frontend/src/components/UploadSection.js:33-48 | adding the same batch twice is adding it once |
| FileSelection.BatchDuplicatesKept | frontend/src/components/UploadSection.js:45-46 | for any list, key and two accepted files sharing a path that is not listed, both are appended, in batch order, since only the previous list is checked |
| FileSelection.EntryFields | frontend/src/components/UploadSection.js:36-42 | the entry's name and size are the file's; its path is the relative path or else the name; its ext is the lower-cased text after the last dot |
| FileSelection.RemoveAtSpec | frontend/src/components/UploadSection.js:93 | `removeFile(i)` drops exactly position `i` and keeps order; an index outside the list changes nothing |
| FileSelection.RenderAppend | frontend/src/components/UploadSection.js:68-70 | the records of a concatenation of leaves are the concatenation of their records |
| FileSelection.RenderUnderDir | frontend/src/components/UploadSection.js:65-68 | an ignored directory gives no records; any other directory puts its name and `/` in front of its children's paths |
| FileSelection.TraverseSpec | frontend/src/components/UploadSection.js:53-74 | `traverseFileTree` returns one record per file below the entry, depth first, outside ignored folders, each with the path of folder names from the drop root |
| FileSelection.TraverseAllSpec | frontend/src/components/UploadSection.js:68-70 | a directory's children are traversed in order and their records flattened |
| FileSelection.RenderAll | frontend/src/components/GraphVisualizer.js:64-77 | with no ignored folders every leaf gives exactly one record, with its full path |
| FileSelection.TraverseWithoutIgnored | frontend/src/components/GraphVisualizer.js:64-77 | the copy without an ignore list returns every file of the tree, in order, each with its full path |
| FileSelection.DroppedPathLost | frontend/src/components/UploadSection.js:39 | as written, a dropped file is keyed by its bare name, so `src/a.js` then `lib/a.js` leave one entry keyed `a.js` |
| FileSelection.DroppedPathKept | frontend/src/components/UploadSection.js:57-63 | keyed by the traversal path, every dropped accepted file whose path is new is listed under that path |
| UploadComponent.Uploader.constructor | frontend/src/components/UploadSection.js:14 | the list starts empty |
| UploadComponent.Uploader.AddFiles | frontend/src/components/UploadSection.js:33-48 | the list becomes the old list followed by the batch's new entries, with dropped files keyed by their path |
| UploadComponent.Uploader.HandleFileInput | frontend/src/components/UploadSection.js:50 | the input's files, when present, are added exactly as `addFiles` as written does; otherwise nothing changes |
| UploadComponent.Uploader.RemoveFile | frontend/src/components/UploadSection.js:93 | the list loses position `i` |
| UploadComponent.Uploader.HandleDrop | frontend/src/components/UploadSection.js:77-91 | without items nothing changes; otherwise the records of every item with an entry are collected in item order (the corrected collection of the Findings table) and added by the corrected, path-keyed `addFiles` |
| UploadComponent.FirstEntry | frontend/src/components/UploadSection.js:83-85 | the first item whose `webkitGetAsEntry()` is non-null: every earlier item has none |
| UploadComponent.DroppedNone | frontend/src/components/UploadSection.js:84-85 | items without an entry contribute no records |
| UploadComponent.DroppedFirstOnlySpec | frontend/src/components/UploadSection.js:83-88 | as written, a drop yields exactly the traversal of its first item with an entry, or nothing |
| UploadComponent.DroppedAppend | frontend/src/components/UploadSection.js:81-89 | as intended, the records of a list of items are each item's records, concatenated in item order |
| UploadComponent.SecondFolderLost | frontend/src/components/UploadSection.js:83-88 | dropping `src` and `lib` together: as written only `src`'s files are collected; as intended both folders' files are |
| UploadComponent.Uploader.HandleUpload | frontend/src/components/UploadSection.js:96-103 | an empty list alerts (UploadSection.js) or does nothing (GraphVisualizer.js); a list holding a dropped entry makes `formData.append` throw before any request; otherwise one form part per entry, in order |
| UploadComponent.DroppedUploadRejected | frontend/src/components/UploadSection.js:102-103 | a single dropped `a.js` added under either keying makes the upload throw in `formData.append` before any request |
| UploadComponent.UploadFixedPosts | frontend/src/components/UploadSection.js:102-103 | appending the `File` behind each entry, a non-empty list is posted as one part per entry, in order, each a browser `File` under the entry's path, and file-input lists are posted exactly as written |
| UploadComponent.BlobPartsSpec | frontend/src/components/UploadSection.js:103 | the corrected parts are one per entry, in order, each the browser `File` behind the entry under its path |
| UploadComponent.Natives | frontend/src/components/UploadSection.js:50 | the input's files, one by one and in order |
| UploadComponent.NativeBatchUnaffected | frontend/src/components/UploadSection.js:39 | for files from the file input the path-keyed `addFiles` and the written one agree |
| UploadComponent.NativeCandidates | frontend/src/components/UploadSection.js:34-42 | file-input files get the same entries under both keyings |
| UploadComponent.FormPartsSpec | frontend/src/components/UploadSection.js:103 | one form part per entry, carrying the entry's file under its path |
| UploadComponent.VariantDifferences | frontend/src/components/GraphVisualizer.js:84 | only UploadSection.js skips folders and alerts on an empty upload; neither copy posts an empty list |
| UploadComponent.IgnoredFolderContributesNothing | frontend/src/components/UploadSection.js:54-65 | dropping a `node_modules`, `.git`, `dist` or `build` folder leaves the list unchanged, however deep its files are |
| UploadPage.PageUpload | frontend/src/app/upload/page.js:23-28 | no request exactly when the selection is empty; otherwise the selection is sent |
| UploadPage.HandleFilesAppend | frontend/src/app/upload/page.js:11-17 | `handleFiles` treats files one at a time and keeps their order |
| UploadPage.HandleFilesSpec | frontend/src/app/upload/page.js:11-17 | the new selection holds exactly the JS/TS-named files, each with its relative path or else its name |
| UploadPage.PageSubsetOfComponents | frontend/src/app/upload/page.js:12 | every file the page keeps is also kept by the upload components |
| UploadPage.PageFileAcceptedByBackend | frontend/src/app/upload/page.js:12-14 | a kept file with a non-empty stem passes the backend's extension filter, both under its name and under the path the page sends it with when the input gives no relative path, as the page's input (no `webkitdirectory`, line 46) does |
| BugChecker.BuildLog | frontend/src/components/BugChecker.js:36-47 | the log is, file by file, one line per error, or the "No bugs" line for a file with none |
| BugChecker.FileLog | frontend/src/components/BugChecker.js:38-46 | a file's lines are one per error, in order, or the "No bugs" line when it has none |
| BugChecker.AllHaveErrorsCheck | frontend/src/components/BugChecker.js:33 | true exactly when every file has an `errors` list |
| BugChecker.CheckerView.constructor | frontend/src/components/BugChecker.js:5-6 | the result starts empty and the log starts with no lines |
| BugChecker.CheckerView.HandleCheck | frontend/src/components/BugChecker.js:8-55 | a request is sent exactly when files are selected; the result and log are those of the handler reading the backend's `bugData.files` |
| BugChecker.ErrorLinesSpec | frontend/src/components/BugChecker.js:39-43 | each error gets its own line, in order |
| BugChecker.LogLinesSpec | frontend/src/components/BugChecker.js:37-47 | the log has one line per error plus one per file without errors |
| BugChecker.LogLinesAppend | frontend/src/components/BugChecker.js:37 | the lines of earlier files come before those of later files |
| BugChecker.CleanFileLine | frontend/src/components/BugChecker.js:45 | a file with no errors gets exactly `File: NAME - No bugs ✅` |
| BugChecker.AnyErrorsSpec | frontend/src/components/BugChecker.js:33 | `some(f => f.errors.length > 0)` holds exactly when some file has an error |
| BugChecker.OutcomeSpec | frontend/src/components/BugChecker.js:33-48 | with files selected and every file listing its errors, the verdict is "Bug(s) Found ❌" exactly when some file has an error and "No Bugs ✅" otherwise, and the log has the size above |
| BugChecker.TrailingSpaceWithoutRule | frontend/src/components/BugChecker.js:41 | an error without a truthy `ruleId` leaves its message followed by a space at the end of the line |
| BugChecker.ItemsOf | backend/index.js:145 | the reply carries each diagnostic, in order |
| BugChecker.ResultsOf | backend/index.js:143-146 | the reply carries one `{ name, errors }` per report, in order |
| BugChecker.BackendReplyRejected | frontend/src/components/BugChecker.js:27 | as written, every reply of the backend ends in "⚠ Bug check failed", because the reply has no top-level `files` |
| BugChecker.BackendReplyChecked | frontend/src/components/BugChecker.js:33-48 | reading `bugData.files`, the verdict on a backend reply is "Bug(s) Found ❌" exactly when some accepted upload has a diagnostic, and the log is the file-by-file log |
| BugChecker.DiagnosticLine | frontend/src/components/BugChecker.js:41 | a detector diagnostic is logged with its line, its column (or `-` when the column is 0), its message and its rule id in parentheses |

## Left out

- File I/O and transport are not modelled: `fs.readFileSync`, `fs.unlinkSync`, multer's temporary files, Express, CORS, `fetch`, `FormData`, `alert`, the router and React rendering. File text, upload records, browser files, drop items and the server's reply are parameters instead.
- The `!res.ok` check and the `graphData`/`bugData` state updates after the upload components' fetch are not modelled. They only move the reply into UI state.
- Asynchrony is not modelled. Promises and `await` are treated as sequential, except that DroppedFirstOnly gives the drop loop's cut-off after its first `await`. A dropped entry that is neither a file nor a directory never resolves its promise in the source; the model has no such entry.
- Paths.Extname: POSIX `path.extname` only. Windows separators and drive letters are not modelled.
- JsText.ToLowerAscii: lower-cases ASCII letters only. JavaScript's full Unicode case mapping is not modelled.
- File-size display, colours, icons and the visualiser and error-list components are not modelled. They only render state.
- UploadComponent.Uploader.RemoveFile: takes an integer index. A non-integer argument, which JavaScript would compare with `!==`, is not modelled.
- UploadComponent.Uploader.AddFiles: keys dropped files by their traversal path. This is the correction in the Findings table; HandleFileInput is proved to match the code as written for file-input files.
- UploadComponent.Uploader.HandleDrop: collects the records of every dropped item, whereas in a browser the loop stops after the first item with an entry (the fourth Findings row, DroppedFirstOnly). It also adds the dropped records through the corrected, path-keyed `addFiles`, whereas UploadSection.js:90 calls the `addFiles` that keys them by bare name. The as-written result on dropped files is stated by FileSelection.DroppedPathLost, not by this method.
- UploadComponent.Uploader.HandleUpload: follows the code as written. The `TypeError` that `formData.append` raises for a traversal record is the AppendRejected outcome, which the third Findings row records; UploadOutcomeFixed is the corrected upload, and nothing else in the model consumes either. The `uploading` flag it leaves set and the unhandled promise rejection are UI state and are not modelled.
- BugChecker.CheckerView.HandleCheck: does not model the request body. It only reports whether a request is made. It follows the corrected `bugData.files` reading in the Findings table.
- BugChecker.CheckerView.HandleCheck: the source throws on reading `errors` of a file without that property. The model gives the outcome of that throw, the "❌ Error connecting to server" state, without modelling the partial log. A `files` value that is not an array, and errors that are not a list, are not modelled.
- BugChecker.CheckerView.HandleCheck: no component in the modelled files renders `BugChecker`, so the shape of its `files` prop is not fixed by the code. Only the number of selected files is used.
- Each graph node is one accepted uploaded file carrying its list of function names; each link goes from a file to a bare function name, which need not be the id of any node. A diagnostic carries a line, a column, a message and a rule id but no severity.

## Findings

| source | as written | input that shows it | evidently intended | confidence | as-written member | corrected member |
|---|---|---|---|---|---|---|
| frontend/src/components/UploadSection.js:39 | `addFiles` keys every entry by `webkitRelativePath`, or by the name when that is empty. The records `traverseFileTree` builds (lines 57-63, and GraphVisualizer.js:67) have no `webkitRelativePath`, so a dropped file is keyed by its bare name and the folder path is lost | drop a folder holding `src/a.js`, then one holding `lib/a.js`: the second is discarded as a duplicate of `a.js` | key a dropped file by the `path` its traversal record carries | medium, not executed | FileSelection.DroppedPathLost | FileSelection.DroppedPathKept |
| frontend/src/components/BugChecker.js:27 | the handler reads `data.files`, but the backend replies `{ graphData, bugData: { files } }` (backend/index.js:152) | any non-empty selection with the backend reachable: the result is always "⚠ Bug check failed" | read `data.bugData.files` | medium, not executed | BugChecker.BackendReplyRejected | BugChecker.BackendReplyChecked |
| frontend/src/components/UploadSection.js:103 | `files.forEach(({ file, path }) => formData.append("files", file, path))` passes each entry's `file`; for a dropped file that is the traversal record built at lines 57-63 (GraphVisualizer.js:67, appended at :88), not a `Blob`, and `append` with a file name throws a `TypeError` before the request | drop a folder holding `a.js`, then upload: no request is sent | append the `File` the traversal record carries | medium, not executed | UploadComponent.DroppedUploadRejected | UploadComponent.UploadFixedPosts |
| frontend/src/components/UploadSection.js:83-88 | `for (const item of items)` awaits `traverseFileTree(entry)` inside the loop (also GraphVisualizer.js:53-58). The drop's `DataTransferItemList` is cut off from the drag data once the event handler first yields, so it then has length 0 and the loop ends after the first item with an entry | drop the folders `src` and `lib` in one gesture: only the files of `src` are added | collect every item's entry before the first `await`, then traverse them | medium, not executed | UploadComponent.SecondFolderLost | UploadComponent.DroppedAppend |
