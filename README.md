# tang-base-node-utils in Dafny

This project models the core of `tang-base-node-utils`: a small Node.js library of filesystem entities and
prompt helpers.

- **Entities.** `Base`, `File`, `Json` and `Dir` wrap a path. They answer kind tests, list children, walk
  whole subtrees, create, move and remove entries, read and write text and JSON, visit a file line by line,
  and export a directory as a JSON tree.
- **Prompt helpers.** `question`, `questionUntil`, `questionNumber` and `questionBoolean` pick an answer
  from what the user types. The small utilities are `enumerate`, `forRun` and `resizeWithin`.

The current TypeScript sources are modelled. So are the two older variants shipped beside them: the
compiled snapshot `dist/` and the hand-written entry point `index.js`. Where their code differs, the
variant has its own member. A lemma then either proves that the two agree (`QuestionRecAgrees`,
`QuestionUntilAgrees`) or names an input on which they part (`StrictReadDiffers`, `TrailingDotDiffers`,
`QuestionRecEmptyDefault`, `ExportUnfiltered`, `MoveWithoutParentDiffers`, `RemovePromptDiffers`).

How the model is built:

- **The filesystem is state.** It is a tree datatype (`FsTree.Node`). Its entries appear in directory-read
  order, and names are distinct at every level. A path is a sequence of clean segments, taken from the
  root.
- **System calls are functions on the tree.** Each `fs` call is a function from tree to result (`FsOps`),
  with its contract proved: `mkdirSync` with `recursive`, `writeFileSync` with flag `w` or `a`, `unlinkSync`,
  `rmdirSync` with `recursive`, `renameSync`, `readFileSync` and `readdirSync`.
- **One mutable object.** A single `FileSystems.FileSystem` object holds the tree. Its methods replace the
  tree with each call's outcome.
- **Entities are classes.** Each class has the source's `originData` field. Every kind test re-reads the
  current tree.
- **Pure code becomes functions.** Recursive and expression code is written as functions. The breadth-first
  specification of `allDirs` and the JSON export are two of them.
- **Loops stay loops.** Code that loops or pushes is a method with loop invariants, proved against those
  functions. This covers the `allDirs` worklist, the `push` loops, the line visitors and the prompt loops.
- **Outside inputs become parameters.**
  - Prompt answers are a scripted sequence of strings.
  - A visitor callback is a function of the line and its index, returning what the call does.
  - The JSON codec is a pair of function parameters.
  - The command line is a parameter.

## Model

| member | source | states |
|---|---|---|
| FsTree.Walk | src/Base.ts:67-73 | `statSync` finds an entry exactly when the lookup does. Its failures are only not-found or not-a-directory. |
| FsOps.ReadFile | src/Base.ts:144-149 | Reading succeeds exactly on a file, and returns that file's content. |
| FsOps.ReadDir | src/Base.ts:270-272 | Listing succeeds exactly on a directory, and returns its entry names in order. |
| FsOps.MkdirPOutcome | src/Base.ts:100-103 | `mkdir -p` succeeds exactly when no prefix of the path is a file. A failure is "already exists" when the path itself is a file, and "not a directory" otherwise. |
| FsOps.MkdirPEffect | src/Base.ts:100-103 | After `mkdir -p` the tree is valid and every prefix of the path is a directory. Nothing off the chain changes. |
| FsOps.MkdirPExisting | src/Base.ts:100-103 | `mkdir -p` of an existing directory changes nothing. |
| FsOps.WriteFileOutcome | src/Base.ts:190-196 | A write succeeds exactly when the parent is a directory and the path is not one. A directory gives "is a directory". |
| FsOps.WriteFileEffect | src/Base.ts:190-196 | After a write the path holds the new text, or the old text followed by the new with flag `a`. Every other entry is unchanged. |
| FsOps.UnlinkOutcome | src/Base.ts:220-223 | Unlink succeeds exactly on a file. It leaves the path missing and changes nothing else. |
| FsOps.RemoveTreeOutcome | src/Base.ts:351-356 | Recursive removal succeeds exactly on a non-root directory. It removes the whole subtree, keeps the kinds of the ancestors and changes nothing else. |
| FsOps.RenameOutcome | src/Base.ts:212-218 | `renameSync` succeeds exactly when all of these hold: the source exists, neither path is the root, and the destination's parent is a directory. Unless the two paths are equal, the destination must also not lie inside the source, and it must be missing, a file replaced by a file, or an empty directory replaced by a directory. |
| FsOps.RenameEffect | src/Base.ts:212-218 | After a rename, everything below the destination is what was below the source, and the source is gone. Both ancestor chains are directories, and the rest is unchanged. |
| FileSystems.FileSystem.Mkdir | src/Base.ts:100-103 | The call's status and the new tree are those of `mkdir -p`. |
| FileSystems.FileSystem.WriteFile | src/Base.ts:190-196 | Status and new tree are those of the write with the given flag. |
| FileSystems.FileSystem.ReadFile | src/Base.ts:144-149 | Returns what reading the current tree gives. |
| FileSystems.FileSystem.ReadDir | src/Base.ts:270-272 | Returns what listing the current tree gives. |
| FileSystems.FileSystem.Unlink | src/Base.ts:220-223 | Status and new tree are those of unlink. |
| FileSystems.FileSystem.RemoveTree | src/Base.ts:351-356 | Status and new tree are those of recursive removal. |
| FileSystems.FileSystem.Rename | src/Base.ts:212-218 | Status and new tree are those of the rename. |
| Paths.ResolveRelative | src/Base.ts:28-30 | With only relative parts, the resolved path is the parts joined in order onto the working directory, which is the root. |
| Paths.ResolveReset | src/Base.ts:28-30 | The last absolute part resets the result. Everything before it is discarded, and the relative parts after it are joined onto it. |
| Paths.ResolveLaterAbsolute | src/Base.ts:28-30 | A later absolute part wins: `new Base("/a/b", "/c").path` is "/c", and `moveTo("/x", "/y")` moves to "/y". |
| Paths.Dirname | src/Base.ts:35-37 | The directory part is a prefix one segment shorter, and the root is its own parent. |
| Paths.Basename | src/Base.ts:42-44 | The base name of a non-root path is a segment. |
| Paths.DirnameBasename | src/Base.ts:35-44 | Directory part plus base name give the path back. |
| Paths.Join | src/Base.ts:108-114 | A joined path extends the base by exactly the names. |
| Listing.KindChildrenMember | src/Base.ts:274-292 | A path is among the files (directories) of `p` exactly when it is a child of `p` of that kind. |
| Listing.KindChildrenNoDup | src/Base.ts:274-292 | `files` and `dirs` never list a path twice. |
| Listing.RecAllMember | src/Base.ts:299-302 | The commented-out recursive listing holds exactly the descendants of the kind. |
| Listing.RecAllNoDup | src/Base.ts:313-316 | The recursive listing lists each descendant once. |
| Listing.ClosureComplete | src/Base.ts:306-317 | A list with the worklist's fixpoint shape contains every descendant directory. |
| Listing.BfsStep | src/Base.ts:309-312 | One worklist step keeps the loop invariant: soundness, the new children are fresh, no duplicates, parents come first. |
| Listing.BfsFromStep | src/Base.ts:309-312 | One step leaves the final listing unchanged and keeps the cursor below the bound, which gives termination. |
| Listing.BfsDirsSpec | src/Base.ts:306-317 | The breadth-first listing is a fixpoint of the worklist and holds every descendant directory exactly once. Each entry comes after its parent, and as a multiset it equals the recursive version. |
| Listing.AllFilesSpec | src/Base.ts:294-303 | `allFiles` lists every descendant file exactly once. As a multiset it equals the recursive version. |
| JsonExport.FileLeaf | src/Base.ts:225-230 | A file's node reads back as exactly its own path. It lists no directory. |
| JsonExport.ExportListed | src/Base.ts:358-383 | A path appears in the exported tree exactly when it is a descendant of that kind whose own node and every directory above it (below the root) pass the filter. |
| JsonExport.ExportUnfiltered | src/Base.ts:374-381 | Without a filter the export lists exactly the recursive listing. |
| JsonExport.SkipIgnoredListed | test/index.ts:44 | With the test's filter, the export from the root holds exactly the entries with no `node_modules` or `.git` segment. |
| JsonExport.SkipIgnoredChain | test/index.ts:44 | The test's filter admits every entry on the way down to a path exactly when no segment of the path is `node_modules` or `.git`. |
| LineVisitors.LinesFrom | src/Base.ts:155-158 | The lines cut from the input contain no terminators. |
| LineVisitors.SplitJoin | src/Base.ts:155-158 | Splitting undoes writing each line followed by a newline. |
| LineVisitors.SplitJoinWith | src/Base.ts:155-158 | Splitting undoes writing each line followed by any of "\n", "\r\n" or a lone "\r". The one exception is a lone "\r" followed by an empty line ended by "\n", which reads back as a single "\r\n". |
| LineVisitors.SplitJoinAmbiguous | src/Base.ts:155-158 | That exception is real: "a", then "\r", then an empty line and "\n" reads back as the single line "a". |
| LineVisitors.SplitExamples | src/Base.ts:155-158 | Splitting handles `\n`, `\r\n` and a lone `\r`, and a last line without a terminator. |
| LineVisitors.FirstStop | src/Base.ts:164-171 | The stop position is where the first visit that closes or throws happens. Every earlier visit proceeded. |
| LineVisitors.VisitLines | src/Base.ts:154-172 | The run makes exactly the calls `(line i, i)` for i up to and including the first close or throw. A throw settles the promise with its error. It also reports, as the compiled loop at dist/Base.js:105-137 does, whether the iterator's `return` released the stream: after a throw, or after a close with lines left. |
| LineVisitors.VisitEveryLine | src/Base.ts:177-188 | Every line is visited with its index until a call throws, which rejects and releases the stream. The stream is released exactly when a call throws, as in the compiled loop at dist/Base.js:141-165. |
| LineVisitors.EveryLineVisited | src/Base.ts:184-187 | When nothing throws, every line is visited. |
| LineVisitors.CloseFromElevenCalls | test.js:10-15 | Closing from index 11 on visits exactly lines 0 to 11. The stream is released exactly when a 13th line exists. |
| EntityOps.CreateFileOutcome | src/Base.ts:93-98 | `createAsFile` succeeds exactly when the parent chain can be made and the path is not a directory. It then leaves a file without truncating existing content, makes every ancestor a directory and changes nothing else. On failure nothing changed. |
| EntityOps.MoveEffect | src/Base.ts:212-218 | A successful `moveTo` puts the moved subtree unchanged at the destination and leaves the source missing. The destination's ancestors are directories, and entries off both chains are unchanged. |
| EntityOps.MoveFailure | src/Base.ts:212-218 | A failed `moveTo` changed at most the parent chain it created. |
| EntityOps.MoveWithoutParentDiffers | index.js:146-150 | Take a file outside the destination's parent chain, with that parent missing but creatable. The legacy `moveTo`, a bare rename, fails on it. The current `moveTo` succeeds by creating the parent first. |
| EntityOps.JsonDecodeCases | src/Base.ts:237-243 | `readSync` gives `null` exactly for blank text, and otherwise succeeds exactly when parsing does. |
| EntityOps.JsonRoundTrip | src/Base.ts:245-257 | Writing a value and reading it back gives the value, whenever the codec round-trips it and its rendering is not blank. |
| EntityOps.JsonTextRoundTrip | src/Base.ts:248-255 | String data is written verbatim, and it reads back as `null` exactly when it is blank. |
| EntityOps.StrictReadDiffers | index.js:288-291 | Under a parser that refuses blank text, the legacy `readSync` fails on blank content where the current one returns `null`. On other content the two succeed on the same inputs. |
| EntityOps.Args | src/Base.ts:388 | The arguments are the command line without its first two entries. |
| EntityOps.ContributionMember | src/Base.ts:389-394 | One argument contributes exactly the files at or below it. |
| EntityOps.InputFilesMember | src/Base.ts:386-397 | A path is collected exactly when it is a file at or below one of the arguments. |
| Entities.Base.Parent | src/Base.ts:63-65 | The parent entity is the directory part, and a strict prefix of a non-root path. |
| Entities.Base.ChildOf | src/Base.ts:108-110 | The child's path extends this path by exactly the names. |
| Entities.Base.SiblingOf | src/Base.ts:112-114 | The sibling's path is the directory part followed by the names. |
| Entities.Base.Sibling | dist/Base.js:76-78 | A one-name sibling keeps the directory part and has that name. |
| Entities.Base.AsFile | src/Base.ts:83-86 | A `File` is obtained exactly when the path is a file now, for the same path. Otherwise the constructor's assertion fails. |
| Entities.Base.AsDir | src/Base.ts:88-91 | A `Dir` is obtained exactly when the path is a directory now. |
| Entities.Base.CreateAsDir | src/Base.ts:100-106 | The outcome and new tree are those of `mkdir -p`, including the skip when the path is already a directory. |
| Entities.Base.CreateAsFile | src/Base.ts:93-98 | The outcome and new tree are those of `mkdir -p` of the parent followed by an append of nothing. |
| Entities.File.New | src/Base.ts:125-129 | Construction succeeds exactly when the path is a file now. Otherwise it is the assertion's error. |
| Entities.File.Parent | src/Base.ts:139-142 | The parent `Dir` exists exactly when the directory part is a directory. |
| Entities.File.Read | src/Base.ts:144-149 | Returns the file's current content, or the read error. |
| Entities.File.Write | src/Base.ts:198-203 | The new tree is that of writing with flag `w`, and the result is the same object. |
| Entities.File.AWrite | src/Base.ts:205-210 | The new tree is that of writing with flag `a`. |
| Entities.File.HandleLineByLine | src/Base.ts:154-172 | A read error rejects. Otherwise the run over the file's lines is the one `VisitLines` specifies. |
| Entities.File.HandleEveryLine | src/Base.ts:177-188 | A read error rejects. Otherwise every line is visited until a throw. |
| Entities.File.MoveTo | src/Base.ts:212-218 | The new tree is that of creating the destination's parent chain, then renaming. `originData` becomes the given parts only on success. |
| Entities.File.MoveToPath | dist/Base.js:185-190 | The same move with one destination path. `originData` becomes `[newPath]`. |
| Entities.File.MoveToWithoutParent | index.js:146-150 | The new tree is that of the rename alone, with no parent creation. `originData` becomes `[newPath]` on success. |
| Entities.File.Remove | src/Base.ts:220-223 | The new tree is that of unlink, and the result is a `Base` for the removed path. |
| Entities.File.ToJsonData | src/Base.ts:225-230 | The node is a leaf that reads back as exactly this file's path. |
| Entities.Json.New | src/Base.ts:233 | A `Json` is built, like a `File`, only over a file. |
| Entities.Json.ReadSync | src/Base.ts:237-243 | A read error is passed on. Otherwise the result is the decoding of the content: `null` for blank text, else the parse. |
| Entities.Json.ReadSyncStrict | index.js:288-291 | The content is parsed with no blank check. |
| Entities.Json.WriteSync | src/Base.ts:248-257 | The new tree is that of replacing the file with the rendered data: strings verbatim, other values stringified with `space`. |
| Entities.Dir.New | src/Base.ts:261-264 | Construction succeeds exactly when the path is a directory now. |
| Entities.Dir.Parent | src/Base.ts:266-268 | The parent `Dir` exists exactly when the directory part is a directory. |
| Entities.Dir.RawChildren | src/Base.ts:270-272 | The entry names of the directory, in order. |
| Entities.Dir.Files | src/Base.ts:274-282 | Succeeds exactly on a directory. The objects' paths are exactly the file children, in listing order, with the rest dropped. |
| Entities.Dir.Dirs | src/Base.ts:284-292 | The objects' paths are exactly the directory children, in listing order. |
| Entities.Dir.AllDirs | src/Base.ts:306-318 | The worklist loop returns exactly the breadth-first listing of `BfsDirsSpec`. The legacy version at index.js:219-231 is the same. The compiled version at dist/Base.js:270-282 is the same. |
| Entities.Dir.AllFiles | src/Base.ts:294-304 | Returns `files`, then the files of each `allDirs` entry, as in `AllFilesSpec`. The legacy version at index.js:207-217 is the same. The compiled version at dist/Base.js:259-269 is the same. |
| Entities.FilesOfEach | src/Base.ts:296-298 | The loop over `allDirs` collects each directory's files, one list after another. |
| Entities.Dir.MoveTo | src/Base.ts:328-334 | The same tree change and `originData` update as `File.MoveTo`. |
| Entities.Dir.MoveToPath | dist/Base.js:289-294 | The compiled single-path move. |
| Entities.Dir.MoveToWithoutParent | index.js:241-245 | The legacy rename without parent creation. |
| Entities.Dir.Remove | src/Base.ts:336-349 | Runs out with no change when the answers run out. On no, it rejects with "cancelled" and changes nothing. On yes, the new tree is that of recursive removal. A result then arrives exactly when removal succeeds, and it is a resolved `Base` for the path, never a rejection. |
| Entities.Dir.RemoveAsked | dist/Base.js:295-306 | The same with the recursive `question`: removal happens only when the answer lowercases to "y". Then a result arrives exactly when removal succeeds, and it is a resolved `Base`. The legacy version at index.js:247-259 is the same. |
| Entities.Dir.DangerousRemoveWithoutEnsure | src/Base.ts:351-356 | The new tree is that of recursive removal, with no prompt. |
| Entities.Dir.ToJsonData | src/Base.ts:358-383 | Succeeds exactly on a directory, and builds exactly the `Export` tree of `ExportListed`, the filter passed down. The compiled version at dist/Base.js:314-340 is the same. The legacy, unfiltered version at index.js:268-280 is the case without a filter (`ExportUnfiltered`). |
| Entities.FileNodes | src/Base.ts:364-368 | The leaves pushed for the admitted files, in order. |
| Entities.DirNodes | src/Base.ts:369-373 | The trees pushed for the admitted directories, in order, each built with the same filter. |
| Entities.ArgumentFiles | src/Base.ts:389-394 | One argument contributes the file itself, a directory's `allFiles`, or nothing. |
| Entities.GetInputFiles | src/Base.ts:386-397 | The collected files' paths are, argument after argument, each argument's contribution (see `InputFilesMember`). |
| Utils.FirstAcceptedSpec | src/utils.ts:21-39 | The answer chosen is the first effective answer (an empty one replaced by the default) that passes the test. Every earlier one failed, and running out means all failed. |
| Utils.FirstAcceptedRefine | src/utils.ts:41-47 | Selecting with a stricter test is selecting with the looser one and starting again after each refusal. |
| Utils.Question | src/utils.ts:21-39 | The loop returns the first non-empty effective answer and how many answers it used. |
| Utils.QuestionUntil | src/utils.ts:41-47 | Returns the first `question` result that satisfies `f`. |
| Utils.NumberSyntaxShape | src/utils.ts:53 | After its optional sign, accepted number text starts with a digit and holds only digits and dots. With the strict pattern it does not end in a dot. |
| Utils.NumberSyntaxDots | src/utils.ts:53 | Accepted number text holds at most one dot. |
| Utils.NumberSyntaxAccepts | src/utils.ts:53 | "12", "-3.25" and "+7" are accepted by the strict pattern, and "1." by the loose one. |
| Utils.NumberSyntaxRefuses | src/utils.ts:53 | "1." is refused by the strict pattern. "", ".5", "1e3", "+" and "1.2.3" are refused by both. |
| Utils.QuestionNumber | src/utils.ts:49-58 | The loop asks at least once and returns the first effective answer that matches the loose pattern. |
| Utils.QuestionBoolean | src/utils.ts:60-75 | Returns whether the first effective answer among Y/y/N/n lowercases to "y". The default is mapped to "Y", "n" or none. |
| Utils.QuestionDefaults | src/utils.ts:60-75 | An empty answer yields "Y" or "n" for a given default. With no default it is skipped. |
| Utils.Enumerate | src/utils.ts:85-87 | Same length, and element i is `(arr[i], i)`. The legacy version at index.js:373-375 is the same. The compiled version at dist/utils.js:78-81 is the same. |
| Utils.FirstRejected | src/utils.ts:108-112 | The index found is the first whose callback rejects: every index before it resolves, and it is the length when none rejects. |
| Utils.ForRun | src/utils.ts:108-112 | Callbacks are called in order over the original array, with the length fixed at entry, up to and including the first one that rejects. The array ends as the original followed by what those calls pushed. `forRun` rejects exactly when some callback rejects, and with that callback's reason. The compiled version at dist/utils.js:82-88 is the same. The legacy version at index.js:377-381 is the same for callbacks that finish synchronously. |
| Utils.ForRunAllResolve | src/utils.ts:108-112 | When no callback rejects, every index of the original array is called, once each. |
| Utils.ResizeWithinErrors | src/utils.ts:136-147 | Exactly these fail, each guard with its own error and in the source's order: a zero dimension, then a negative origin, then a negative target other than -1, then both targets -1. |
| Utils.ResizeWithinFits | src/utils.ts:149-174 | A target of -1 on one axis keeps the other axis and scales by the floor of the ratio. Otherwise the axis picked by comparing `originW*targetH` with `targetW*originH` is met exactly, and the other is the floored ratio and fits within the target. |
| DistUtils.QuestionRec | dist/utils.js:29-46 | With no default, the recursive `question` never returns an empty answer, and it uses at least one answer. The legacy version at index.js:323-341 is the same. |
| DistUtils.QuestionRecAgrees | dist/utils.js:29-46 | Unless the default is "", the recursive and looping `question` choose the same answer. |
| DistUtils.QuestionRecEmptyDefault | dist/utils.js:41-43 | With "" as default, the recursive version returns "" for an empty answer, where the looping version asks again. |
| DistUtils.QuestionUntilRec | dist/utils.js:48-56 | The recursive `questionUntil` only returns an answer that satisfies `f`. The legacy version at index.js:343-349 is the same. |
| DistUtils.QuestionUntilAgrees | dist/utils.js:48-56 | The recursive and looping `questionUntil` choose the same answer. |
| DistUtils.QuestionNumberStrict | dist/utils.js:58-68 | A default that is not a number fails the assertion. Otherwise the result is the first effective answer matching the strict pattern. The legacy version at index.js:351-365 has the same error, thrown at the call instead of rejecting the returned promise. |
| DistUtils.TrailingDotDiffers | dist/utils.js:63 | "1." settles the current `questionNumber`, while the older one skips it and asks again. |
| DistUtils.RemovePromptDiffers | dist/Base.js:295-306 | On the answer "yes" the two `remove` prompts part. The current `questionBoolean` refuses it and asks again. The older recursive `question` takes it, and since it does not lowercase to "y" the removal is cancelled. |

## Left out

- Real I/O is replaced by parameters: the `fs` calls, `readline` streams, stdin and stdout. The filesystem is a tree value, a file's lines come from its content, and answers are a scripted sequence. This means `__queryInput` is not modelled, and prompt text formatting is not modelled either.
- `Paths.Resolve`: with no absolute part, `path.resolve` starts at the working directory. The model takes that to be the root. The parts the entities build are absolute, except a child's own name.
- Node's `path` library is not modelled beyond `resolve`. Paths are clean segment sequences from the root, so resolving against the working directory, `.`/`..` normalisation and platform separators are out. So are `relativeFrom`/`relativeTo` and the `path.parse` rules behind `suffix` and `name`.
- `fileNames` and `dirNames` are not modelled: they only map `basename` over `files` and `dirs`, and nothing is proved on top of them.
- `JSON.parse` and `JSON.stringify` are function parameters, not an implementation of JSON. `refreshProp` is left out because it is only a codec round trip on an object property.
- `delay` is left out because it only waits on a timer.
- The `+input` conversion of `questionNumber` is left out: it is floating-point conversion. `Utils.QuestionNumber` and `DistUtils.QuestionNumberStrict` return the accepted text.
- `Utils.ResizeWithinFits`: the source takes the floor of floating-point products. The model uses exact integer floors of the ratios, so it may differ by one where floating-point rounding matters.
- Symlinks, permissions and device errors are not modelled: `stat` sees only missing, file and directory. A symlink cycle, which would make `allDirs` loop forever, cannot occur in a finite tree.
- `FsOps.RemoveTree`: `rmdirSync(p, {recursive: true})` has the semantics of Node 16 and later. A missing path is "not found", and a file is "not a directory". From Node 12.10 to 15 the same call ignored a missing path, so `dangerousRemoveWithoutEnsure()` on a directory already gone returned a `Base` there. Those older versions are not modelled.
- `rmdirSync` is modelled as all or nothing. A removal that fails midway and leaves part of the subtree is not modelled.
- `Entities.Json` does not inherit `File`'s methods, because Dafny classes have no inheritance. It repeats the constructor and path it needs.
- `JsonExport.SkipIgnoredListed`: stated for the export from the root. test/index.ts:43-44 exports the parent of the test directory, which is not stated separately.
- `JsonExport.ExportListed`: the filter sees only the entry's kind and path (`Item`), not the whole entity object.
- Callbacks are functions without side effects. The `handleLineByLine` visitor returns proceed, close or throw, and the `forRun` callback returns what it pushes onto the array and whether it resolves or rejects. Other effects of a callback are not modelled.
- `Utils.ForRun`: the legacy `forRun` at index.js:377-381 does not await its callback. With asynchronous callbacks, the calls overlap, `forRun` returns before they settle, their pushes land later and a rejection does not stop the loop. That interleaving is not modelled.
- `DistUtils.QuestionNumberStrict`: at index.js:351-355 the default's assertion throws before any promise exists, where dist/utils.js:60 rejects the returned promise. The model gives the same error value for both.
- `Entities.Dir.Remove`: a removal that throws inside the `then` callback leaves the promise pending. The model reports this as no result, like running out of answers. The unhandled rejection itself is not modelled.
- `Entities.Dir.RemoveAsked`: the `reject` that runs after `resolve` in the older variants has no effect on a settled promise, so it is not modelled.
- Concurrency between entities is out of scope: promises are awaited one at a time.
