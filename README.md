# coderat functions bridge, modelled in Dafny

coderat lets a chat assistant call functions on a user's project. The
functions (`lib/Functions.js`) answer through a headless Neovim process
that runs the project's language servers. This project models the core of
that bridge:

- `retryUntil`, which retries a query while it fails an assertion, within a
  time budget (`retry.dfy`);
- the MessagePack-RPC correlation table of the `Functions` class and the
  lazily spawned nvim process: sending requests, matching responses by id,
  the timeout timer, `dispose` (`rpc.dfy`);
- the parameter schemas of `lib/functionSchemas.js` and `validateSchema`
  (`schemas.dfy`);
- `#toLspChanges` and `pick`, which turn the assistant's list of file changes
  into the `documentChanges` of a Language Server Protocol 3.17
  WorkspaceEdit, and the nvim call sequence of `applyWorkspaceEdit`
  (`workspace_edit.dfy`);
- what `references` and `definition` make of the language server's answers,
  and the whole calls around `retryUntil` (`queries.dfy`);
- the command line `runTests` builds from the project configuration
  (`test_runner.dfy`);
- the JavaScript runtime pieces these use: thrown errors, truthiness,
  `String()`, `String.prototype.replace` with a string pattern, and a
  simplified `node:path` (`js.dfy`).

The model keeps the code's quirks rather than the behaviour one might
expect. Where the code and the design description disagree, the model
follows the code:

- Errors other than `AssertionError` are not propagated by `retryUntil`. The
  `catch` block only rethrows assertion failures. Any other error (a
  rejected RPC request, a TypeError on a `null` answer) is swallowed and the
  query resolves to `undefined`.
- The timer of a request does not remove that request's entry. It removes
  the entry under the current counter. It rejects its own request's promise
  only if that entry existed. Past-deadline entries can therefore stay in
  the table, and a later request can be left pending forever
  (`Rpc.TimerStrandsLaterRequest`).
- A response rejects its request when `error` is truthy, not when it is
  non-null. The timer delay is always 10000 ms, whatever `timeout` the
  object was built with.
- `runTests` without a configuration file fails with the file system's
  ENOENT error. It does not fail with a configuration error naming
  `testCommand`.
- The `applyWorkspaceEdit` schema does not require `changes`. Its
  `required` list sits inside `properties`.

## Model

| member | source | states |
|---|---|---|
| `Retry.RetryUntil` | lib/Functions.js:15-29 | every call but the last threw an AssertionError; the last call decides the outcome (value resolves, AssertionError rejects, any other error resolves `undefined`); one call when timeout <= 0, otherwise (calls - 2) * interval < timeout |
| `Retry.SmallTimeoutsRoundIntervalToZero` | lib/Functions.js:139 | `Math.round(timeout / 10)` is 0 for timeouts 1 to 4 and at least 1 from 5 on, so the number of retries has a bound exactly when the timeout is not positive or it is at least 5; without one, only a function that fails its assertion on every call is retried forever |
| `Retry.ResolvedByACall` | lib/Functions.js:16-17 | a resolved value is the value the last call returned |
| `Retry.OtherErrorsAreSwallowed` | lib/Functions.js:16-28 | an error not named AssertionError is not retried and the promise resolves to `undefined` after one call |
| `Retry.AssertionFailureRetried` | lib/Functions.js:19-26 | an AssertionError is rethrown unchanged when the remaining timeout is <= 0, otherwise the function is called again with timeout - interval |
| `Retry.PermanentFailureCalls` | lib/Functions.js:15-27 | a function that always fails its assertion is called n times with (n - 2) * I < T <= (n - 1) * I, and the last AssertionError is the rejection |
| `Retry.PermanentFailureCallsCeil` | lib/Functions.js:15-27 | the same count as ceil(T / I) + 1, which is at least two calls |
| `Retry.AssertionFailureSettles` | lib/Functions.js:19-26 | after a first AssertionError the promise settles as the retry with timeout - interval does, or rejects with that error once the timeout is spent |
| `Rpc.Send` | lib/Functions.js:324-341 | sending keeps the bridge invariant (ids, table keys within the counter, promises and timers per request, one spawn) and never changes a settled promise |
| `Rpc.Receive` | lib/Functions.js:52-66 | handling a response keeps the invariant and never changes a settled promise |
| `Rpc.Fire` | lib/Functions.js:334-339 | a timer firing keeps the invariant and never changes a settled promise |
| `Rpc.InitialInvariant` | lib/Functions.js:32-36 | a new object satisfies `Invariant`, the state the bridge keeps: one request written, one promise and one 10000 ms timer per id, ids 1, 2, 3, ... in order, table keys among the sent ids with a pending or timed-out promise, at most one spawn, and no kill before a spawn; `Send`, `Receive`, `Fire` and `Disposed` keep it |
| `Rpc.Disposed` | lib/Functions.js:72-76 | dispose keeps the invariant, kills a spawned process once and changes nothing else: pending requests stay pending, their table entries and timers stay, and nothing is written |
| `Rpc.SendAll` | lib/Functions.js:324-332 | any sequence of sends keeps the invariant |
| `Rpc.SendWritesNextId` | lib/Functions.js:326-331 | a send takes the next id and writes `[0, id, method, args]` after the earlier requests |
| `Rpc.SendAddsOneEntry` | lib/Functions.js:326-332 | a send adds exactly one table entry, under a fresh key, and changes no other entry |
| `Rpc.SendArmsFixedTimer` | lib/Functions.js:334-339 | a send appends one pending promise and one 10000 ms timer for its method; the earlier requests' promises and timers are left as they were |
| `Rpc.IdsCountFromOne` | lib/Functions.js:32 | from a fresh object the requests carry ids 1, 2, 3, ... in order and the table holds exactly those ids |
| `Rpc.SendAllAppends` | lib/Functions.js:326-332 | n sends advance the counter by n, append the n requests with consecutive ids and add exactly those ids to the table |
| `Rpc.ResponseSettlesItsEntry` | lib/Functions.js:56-65 | a response for a registered id removes only that entry, rejects a pending promise when `error` is truthy and resolves it with `result` otherwise, and touches no other promise |
| `Rpc.UnknownResponseIgnored` | lib/Functions.js:56 | a response whose id has no entry changes nothing |
| `Rpc.TimerRemovesCurrentCounter` | lib/Functions.js:334-339 | a firing timer removes the entry of the current counter, rejects only its own request's promise with a timeout, and only if that entry existed (otherwise no promise changes), and does not fire again; the other timers, the requests written, the counter and the process are left as they were |
| `Rpc.StrandedForever` | lib/Functions.js:324-341 | a pending request with no entry and a fired timer stays so under every later event |
| `Rpc.TimerStrandsLaterRequest` | lib/Functions.js:334-339 | with two requests in flight, the first timer deletes the second entry; the second answer is then dropped and the second request is stranded |
| `Rpc.SpawnedAtMostOnce` | lib/Functions.js:43-49 | nvim is spawned by the first send only, also after dispose; dispose kills only a spawned process and never clears it |
| `Rpc.Functions.constructor` | lib/Functions.js:32-41 | a new object has counter 0, an empty table, no process, and keeps `cwd` and `timeout` |
| `Rpc.Functions.Nvim` | lib/Functions.js:43-70 | the getter spawns once and then reuses the process |
| `Rpc.Functions.SendRpcRequest` | lib/Functions.js:324-341 | the object's new state is `Send` of the old one, and the id returned is the incremented counter |
| `Rpc.Functions.OnData` | lib/Functions.js:52-66 | the object's new state is `Receive` of the old one |
| `Rpc.Functions.OnTimeout` | lib/Functions.js:334-339 | the object's new state is `Fire` of the old one |
| `Rpc.Functions.Dispose` | lib/Functions.js:72-76 | the object's new state is `Disposed` of the old one |
| `Schemas.FindSchema` | lib/Functions.js:345 | a schema is found exactly for definition, references, applyWorkspaceEdit and runTests |
| `Schemas.ValidateSchema` | lib/Functions.js:344-355 | succeeds exactly when a schema exists and the arguments conform; an unknown name is a TypeError; non-conforming arguments throw an Error whose message names the function |
| `Schemas.ReadFileHasNoSchema` | lib/Functions.js:78-79 | `readFile` fails in validation with a TypeError, whatever its arguments |
| `Schemas.QuerySchemaRequiresAll` | lib/functionSchemas.js:5-26 | definition and references accept exactly a string `file` with numbers `line` and `character` |
| `Schemas.ChangesNotRequired` | lib/functionSchemas.js:31-120 | arguments without `changes` pass the applyWorkspaceEdit schema |
| `Schemas.ChangesNonEmptyAndDistinct` | lib/functionSchemas.js:34-118 | a valid `changes` list has at least one item and no repeated item |
| `Schemas.TagsNotExclusive` | lib/functionSchemas.js:37-115 | an item with none of create/delete/rename/modify, or with several, passes |
| `Schemas.RequiredPerKind` | lib/functionSchemas.js:40-113 | create needs fileName and content, delete fileName, rename existingFileName and newFileName, modify fileName, newText and a range whose start and end have line and character |
| `Schemas.TestsSchemaRequiresFileName` | lib/functionSchemas.js:123-136 | runTests arguments conform exactly when `fileName` is a string and `testName`, if given, is a string |
| `WorkspaceEdit.FileUri` | lib/Functions.js:226 | a URI is the text `file://`, the project root, a slash and the name without one leading "./"; `..` segments are kept as text, not resolved |
| `WorkspaceEdit.Pick` | lib/Functions.js:357-362 | the result has exactly the given keys, each with the object's value or undefined |
| `WorkspaceEdit.ModifyEditCarriesNewTextAndRange` | lib/Functions.js:271 | a modify edit carries exactly `newText` and `range`, with the values the assistant sent |
| `WorkspaceEdit.ToLspChanges` | lib/Functions.js:220-282 | the accumulated array, or the error thrown, is the translation of the list of changes |
| `WorkspaceEdit.TranslateOneShape` | lib/Functions.js:221-277 | precedence create > delete > rename > modify; create emits a CreateFile and an insert at (0,0)-(0,0); delete, rename and modify emit one entry each after their file check; anything else is an unknown change type |
| `WorkspaceEdit.TranslateOneWidth` | lib/Functions.js:222-274 | a create emits two entries, every other kind one |
| `WorkspaceEdit.TranslateAppend` | lib/Functions.js:221-279 | translating two lists in a row concatenates the outputs in order; the first error wins |
| `WorkspaceEdit.TranslateStep` | lib/Functions.js:221-279 | one more step of the reduce appends that change's entries or ends with its error |
| `WorkspaceEdit.FailurePropagates` | lib/Functions.js:221-279 | a failing prefix makes the whole translation fail with the same error |
| `WorkspaceEdit.TranslateCount` | lib/Functions.js:221-279 | the output has two entries per create and one per other change |
| `WorkspaceEdit.TranslateOkIffAllOk` | lib/Functions.js:221-279 | the translation succeeds exactly when every change does |
| `WorkspaceEdit.FirstFailureWins` | lib/Functions.js:221-279 | the error thrown is that of the first failing change |
| `WorkspaceEdit.ExistsAskedOnlyForCheckedNames` | lib/Functions.js:243-263 | existence is asked only for the deleted file, the rename source and the modified file, never for a created file or a rename target |
| `WorkspaceEdit.TranslateUnderRoot` | lib/Functions.js:226-268 | every emitted URI starts, as text, with `file://`, the project root and a slash (a string prefix only: with `..` in a name the path node builds can lie outside the root) |
| `WorkspaceEdit.UnknownChangeMessage` | lib/Functions.js:276 | an item without a known kind throws `Unknown change type: <first key>. Expected one of: create, delete, rename, modify.` |
| `WorkspaceEdit.TranslateOne` | lib/Functions.js:221-277 | one change throws exactly when its checked file is missing or its kind is unknown, and a missing file throws the source's message |
| `WorkspaceEdit.Translate` | lib/Functions.js:220-279 | a thrown error is the error of one of the changes |
| `WorkspaceEdit.TryBlock` | lib/Functions.js:181-186 | nothing reaches nvim unless every change translates; then the buffer's lines are set to the translation and, unless that fails, the edit is applied; the block succeeds exactly when the changes translate and both calls succeed |
| `WorkspaceEdit.ApplyWorkspaceEdit` | lib/Functions.js:175-191 | it resolves exactly when the arguments are valid, the changes translate and all four nvim calls succeed; invalid arguments send nothing |
| `WorkspaceEdit.InvalidEditSendsNothing` | lib/Functions.js:176-177 | invalid arguments fail before any nvim call |
| `WorkspaceEdit.TempBufferDeletedLast` | lib/Functions.js:179-190 | once the temp buffer is created, deleting it is the last call and happens once |
| `WorkspaceEdit.NoApplyAfterTranslationFailure` | lib/Functions.js:181-190 | a failed translation (or missing `changes`) writes and applies nothing, deletes the buffer, and rejects with the translation's error unless the delete fails |
| `WorkspaceEdit.SuccessfulEdit` | lib/Functions.js:176-191 | when every call succeeds the calls are create buffer, set lines to the translation, apply, delete buffer |
| `Queries.Answered` | lib/Functions.js:128 | `.filter(Boolean)` keeps exactly the clients that answered, and no more elements than there were clients |
| `Queries.AnsweredFirst` | lib/Functions.js:128 | the kept list is empty exactly when no client answered, and otherwise starts with the first answer |
| `Queries.AnsweredFrom` | lib/Functions.js:128 | each kept answer is the answer at the position `AnsweredAt` gives for it |
| `Queries.AnsweredAtIncreasing` | lib/Functions.js:128 | the kept answers are in the clients' order |
| `Queries.AnsweredAtCovers` | lib/Functions.js:128 | every client that answered is kept |
| `Queries.MapLocations` | lib/Functions.js:132-138 | one result per location, in order, each the location's project path and range start |
| `Queries.FindDefinition` | lib/Functions.js:155-162 | the index found is the first answer whose first target is in another file or on another line; all answers before it were looked at and passed over; a null result throws, and only after every earlier answer was passed over |
| `Queries.ProjectPath` | lib/Functions.js:134 | the reported file starts with "./" |
| `Queries.ProjectPathUnderRoot` | lib/Functions.js:134 | for a URI under the project root the reported file is "./" and the rest of the path after the root |
| `Queries.ReferencesAttempt` | lib/Functions.js:125-139 | one try returns exactly when the first client that answered found more than one location, and then returns all of them mapped, in order; one location or none fails the assertion; a rejected request throws its plain `Error`, and a null output, no answering client or a null result throws a TypeError, so none of these is retried |
| `Queries.DefinitionReturnsAccepted` | lib/Functions.js:148-169 | what one try of `definition` returns is the first target of the first answer `find` accepts |
| `Queries.DefinitionRetriedWhenAllRejected` | lib/Functions.js:155-162 | when every answer points back at the position asked about, the try fails its assertion and is retried |
| `Queries.References` | lib/Functions.js:117-140 | a failed preparation rejects with its error; otherwise the call settles exactly as retryUntil over the tries does; after a successful one, a first reply that yields locations resolves the call with them; any resolved value comes from one of the retried requests, for valid arguments naming an existing file |
| `Queries.Definition` | lib/Functions.js:142-170 | a failed preparation rejects with its error; otherwise the call settles exactly as retryUntil over the tries does; after a successful one, a first reply that yields a location resolves the call with it; any resolved value comes from one of the retried requests, for valid arguments naming an existing file |
| `Queries.Prepare` | lib/Functions.js:117-121 | for `definition` and `references`: invalid arguments give the schema error, a missing file gives the AssertionError `File "<file>" does not exist.`, and otherwise the outcome of opening the file decides; the retried part is reached only with valid arguments and an existing file |
| `Queries.ReferencesResolve` | lib/Functions.js:117-140 | valid arguments, an existing file, a successful edit and a first answer with two or more locations resolve `references` with all of them mapped, in order |
| `Queries.ReplaceLeadingScheme` | lib/Functions.js:134 | `replace('file://', '')` strips a leading scheme |
| `Queries.ProjectPathRoundTrip` | lib/Functions.js:134 | the reported file, joined to the project root, gives back the server's URI |
| `Queries.ProjectPathOfFileUri` | lib/Functions.js:166 | the URI of a project file maps back to its name with a leading "./" |
| `Queries.ProjectPathOfName` | lib/Functions.js:134 | the URI of a project file named without a leading "./" maps to that name behind "./" |
| `Queries.SingleReferenceRetriedUntilRejected` | lib/Functions.js:125-139 | answers with fewer than two references are retried until the call rejects with an AssertionError, after ceil(T / I) + 1 requests, at least two |
| `Queries.ReferencesRetried` | lib/Functions.js:125-139 | a first try that fails its assertion is retried with the timeout less one interval, or rejects with that AssertionError once the timeout is spent |
| `Queries.ReferencesUndefined` | lib/Functions.js:125-139 | a rejected request, a null output, no answering client or a null result on the first try ends the call, which resolves to `undefined` |
| `Queries.DefinitionRetried` | lib/Functions.js:148-169 | a first try that fails its assertion is retried with the timeout less one interval, or rejects with that AssertionError once the timeout is spent |
| `Queries.DefinitionUndefined` | lib/Functions.js:148-169 | a rejected request, a null output or a null result met before an accepted answer ends the call, which resolves to `undefined` |
| `Queries.ReferencesFound` | lib/Functions.js:132-138 | the references map to as many locations, in order, with their range starts and files that map back to the URIs |
| `Queries.DefinitionSkipsSelf` | lib/Functions.js:155-162 | an answer pointing at the queried file and line is passed over for the next one |
| `Queries.DefinitionExample` | lib/Functions.test.js:71-78 | one try of `definition` for `Banana` at index.js 2:21 returns ./lib/banana.js 2:21 |
| `Queries.DefinitionCallExample` | lib/Functions.test.js:71-78 | the whole `definition` call for index.js 2:21 resolves to ./lib/banana.js 2:21 |
| `Queries.ReferencesCallExample` | lib/Functions.test.js:95-102 | the whole `references` call for lib/banana.js 2:21 resolves to ./lib/banana.js 2:21, ./index.js 0:7 and ./index.js 2:19 |
| `TestRunner.Split` | lib/Functions.js:201 | `split(' ')` gives at least one piece and no piece contains a space |
| `TestRunner.JoinSplit` | lib/Functions.js:201 | joining the pieces with spaces gives the text back |
| `TestRunner.SplitJoin` | lib/Functions.js:201 | splitting joined space-free words gives the words back |
| `TestRunner.JoinAppend` | lib/Functions.js:217 | joining appended words puts the first words' text, then a space, first |
| `TestRunner.EscapeQuotes` | lib/Functions.js:208 | every double quote of the result follows a backslash |
| `TestRunner.UnescapeEscape` | lib/Functions.js:208 | unescaping the escaped name gives the test name back |
| `TestRunner.RunTests` | lib/Functions.js:193-217 | a command line is built exactly when the file exists, testCommand is a non-empty string and a given test name is a string with nearestTestOption set; a missing file, a falsy testCommand, or a test name without nearestTestOption throw the source's errors (the last checked before the test name's type); otherwise the arguments are the command's words, then `opt="name"` if a test name is given, then the file name if given, and the command is a prefix of the command line |
| `TestRunner.PrefixKept` | lib/Functions.js:201-217 | the configured command is a prefix of the joined command line |
| `Js.ReplaceFirst` | lib/Functions.js:134 | the first occurrence of the pattern, and only it, is replaced; text without an occurrence comes back unchanged |
| `Js.PathJoin` | lib/Functions.js:226 | a joined path starts with the directory and a slash |
| `Js.JoinDropsDotSlash` | lib/Functions.js:226 | a name with a leading "./" is joined to the directory without it |
| `Js.PathRelative` | lib/Functions.js:134 | the relative path, appended to the directory and a slash, gives the path back |
| `Js.RelativeOfJoin` | lib/Functions.js:166 | the relative path of a joined name is the name without its leading "./" |

## Left out

- Spawning nvim, its stdin and stdout streams, and msgpack-lite encoding are I/O and a foreign library. Each stdout chunk is taken to decode to one `[type, id, error, result]` tuple.
- Timers, promises and the event loop are not modelled as such. A timer firing is an event on the state, and an awaited call is its answer given as a parameter.
- What Neovim and the language servers do, and the Lua text sent to them, are left out. The model starts from the parsed JSON they print.
- The file system is a parameter. `#validateFile` asks `fileExists`, and the configuration file is given already parsed. `readFile` itself is left out: it fails in `validateSchema` before touching any file.
- Running the test command through the `meshell` shell is left out, and so is its output. `TestRunner.RunTests` returns the argument list.
- The commands under `commands/` and the CLI in `index.js` (OpenAI API calls, zip handling, a browser, a polling loop) are not part of this model.
- JSON values have no maps and no fractional numbers. Numbers are integers, and extra properties of nested objects are not represented.
- A definition server that answers with `Location` objects instead of `LocationLink` objects is not modelled.
- Output that is not JSON, which would make `JSON.parse` throw a SyntaxError, is not modelled.
- `Schemas.ValidateSchema`: the message states only its start, `Invalid parameters for <name>: `. The validator's list of errors that follows is not modelled.
- `Schemas.ChangesNonEmptyAndDistinct`: items are compared as Dafny values. Their extra properties count in key order, where JSON deep equality ignores order.
- `Js.PathJoin`: `path.join` is simplified. It drops one leading "./" of the name and joins with a single "/". Other normalisation (`..`, repeated slashes) is left out.
- `WorkspaceEdit.TranslateUnderRoot`: the URIs are only shown to start with the root as text. Node resolves `..` segments, so a name such as `../../etc/x` gives a URI outside the project root. `#validateFile` checks only that the file exists, although its comment says the file must also lie within the root. No member promises that the edited files lie inside the project.
- The constructor's defaults are not modelled: `cwd` (the process's working directory) and `timeout` (3000) are always given as arguments.
- `Queries.ProjectPathRoundTrip`: only URIs under the project root are covered. A path outside the root is given back unchanged, where `relative` would produce `../` segments.
- `Queries.FindDefinition`: the TypeError messages of the engine are placeholders. Only the error name matters to `retryUntil`.
- `TestRunner.RunTests`: the ENOENT message is the engine's and is stated only as an Error. A non-string `testCommand` or `testName` fails with a TypeError whose wording is a placeholder.
- The error message in `Queries` quotes the query as `{"file":...,"line":...,"character":...}`. It does not escape special characters in the file name as `JSON.stringify` would.
- `Number(tempBufId)` is not modelled. The buffer id is kept as the text nvim printed.
