# karma-intellij reporter core, modelled in Dafny

This project models the part of the karma-intellij plugin that turns Karma's
test-run events into the line protocol an IntelliJ IDE reads, and the part that
chooses the one browser whose coverage is collected.

- **The test-event tree** (`lib/tree.js`). The module `TestTree` stores the tree
  immutably. `nodes` maps a node id to its record: parent id, name, type,
  location hint, and either a suite body or a leaf body. A suite body holds its
  ordered children and a name lookup map. A leaf body holds its status, duration
  and failure message. The tree also keeps a `finished` set, the `nextId`
  counter and the log of lines written so far. The root (config) node has id 1
  and `nextId` starts at 2. Every operation is a pure state transition. The
  operations that throw in JavaScript before they change anything return a
  `Result`.
- **The wire lines** (module `Messages`). Each line is a structured value:
  start, finish, test count, the null-suite diagnostic, or a browser console
  message. `Render` gives its exact text. The attribute escaping is a function
  parameter. The module `Decimal` writes and parses the numbers inside the
  lines.
- **The finish cascade** (module `Cascade`). `finishIfStarted` is compared with
  an independent definition: the post-order list of the unfinished nodes below
  a node, skipping every finished subtree.
- **The reporter** (module `Reporter`). It models each Karma event handler as a
  function from the reporter state to the next state plus the exception thrown,
  if any. Lines written before a throw are kept, as they are in JavaScript. The
  module `RunInvariant` states the invariant every handler keeps during a run.
  The module `RunCompletion` proves that the lines of a completed run are
  *balanced*: every node finishes after it starts, at most once, and after its
  parent started (module `Protocol`).
- **The suite chain** (module `SuiteChain`). It compares the loop of
  `getOrCreateLowerSuiteNode` with a plan of what the loop visits.
- **Browser tracking** (module `BrowserTracking`). It models the
  `browsers_change` listener and the connect/disconnect events it derives from
  the difference of two maps.
- **Coverage selection** (module `CoverageSelection`). It models the choice of
  the coverage browser, the event filters of the coverage reporter, and the
  startup status it reports.

The model follows the code where the code is surprising:

- Every start of a direct child of the root writes the root's start line again
  first. A root that finishes with no children writes its start line first.
  `StartOnceBelowRoot` in `Protocol` allows only the root's start line to
  repeat.
- Status 1 (skipped) finishes as `testFailed`, the same as statuses 2 and 3.
  `setStatus` overwrites every time it is called. `writeFinishMessage` has no
  double-finish guard; only `finishIfStarted` checks `isFinished`.
- Spec leaves are never registered in a lookup map. So the "already created"
  check of `createSpecNode` only fires for a suite of the same name. The same
  spec reported twice makes two leaves (`Reporter.DuplicateSpecRecordedTwice`).
- The suite-chain loop reads the chain's length once, before it starts, and
  splices null names out of the caller's array in place. For the chain
  `[A, null, B]`:
  - the null is removed, so `B` shifts into the slot the loop has already
    passed;
  - the read at index 2 falls past the shortened array and counts as a second
    null;
  - only `A` is visited, two diagnostic lines are written, the spec attaches
    under `A`, and the caller's array becomes `[A, B]`;
  - the spec's location hint is built from that shortened array.

  `B` is never visited, so no suite is created for it
  (`SuiteChain.NullInsideChain`, `SuiteChain.NullInsideChainWalk`).
- `finishIfStarted` reads `children`, which a leaf does not have. In the
  reporter, every leaf is finished right after it is created. So in the model,
  "every leaf is finished" (`TestTree.LeavesFinished`) is a precondition of the
  cascade. `RunInvariant` proves that every handler keeps it.
- Each source file sees a browser differently, so the model has three browser
  types on purpose:
  - `Reporter.Browser` holds the id, name and total that the reporter reads;
  - `BrowserTracking.Captured` holds an id and name that may be missing, as
    `browsers_change` hands them over;
  - `CoverageSelection.BrowserRef` is an object compared by identity, as the
    coverage reporter's `===` does.

## Model

| member | source | states |
|---|---|---|
| TestTree.NewTree | lib/tree.js:15-19 | A new tree holds only the root, with id 1. The root is a `config` suite whose hint is the config path, with no children. `nextId` is 2, nothing is finished, nothing is written, and the structural invariant holds. |
| TestTree.AddChild | lib/tree.js:138-152 | Fails exactly when the parent is finished. Otherwise the child takes the current `nextId` and the counter grows by one. The child is appended at the end of the parent's children, with the parent as its parent. The lookup map, every other node, the finished set and the log are untouched. Ids stay unique, and every parent is older than its children. |
| TestTree.SetStatus | lib/tree.js:181-185 | Status, duration and message are replaced on every call; nothing else in the tree changes. |
| Reporter.RecordLeaf | lib/tree.js:181-204 | Setting a status in 0..3 and finishing the leaf stores the status, duration and message. It finishes the leaf and appends one finish line: `testFinished` for status 0, `testFailed` otherwise, with the matching extras. |
| TestTree.WriteFinish | lib/tree.js:65-73 | Fails exactly when the leaf's status is unset or outside 0..3, and then it writes nothing. Otherwise the node becomes finished, even if it was finished before. The node's finish line is appended, preceded by the root's start line when the node is the childless root. |
| TestTree.FinishLineOf | lib/tree.js:92-101 | A finish line exists exactly when the node has a finish command; otherwise the unexpected-status error carries the leaf's status. The line names the node's id, the node's finish command, and the node's extras (none for a suite). |
| TestTree.FinishCommand | lib/tree.js:191-204 | A suite finishes with `testSuiteFinished`. A leaf has no finish command exactly when its status is unset or outside 0..3. Status 0 gives `testFinished`, and statuses 1, 2 and 3 all give `testFailed`. |
| TestTree.StartLineOf | lib/tree.js:75-90 | A start line carries the node's id, its parent's id (0 for the root), its name, type and hint. Its command is `testSuiteStarted` exactly for a suite and `testStarted` exactly for a leaf. |
| TestTree.WriteStart | lib/tree.js:56-63 | Starting a child of the root appends the root's start line and then the child's, on every such call. Starting any other node appends only its own start line. The nodes are untouched. |
| Messages.Render | lib/tree.js:75-101 | Start, finish and count lines begin with `##teamcity[` and end with `]`. A browser message is written as it is. |
| Messages.ExtraParams | lib/tree.js:206-218 | A leaf's extra finish parameters are absent exactly when it has no numeric duration, its status is not 3 and its message is empty. Suites never have extras, and present extras begin with a space. |
| Messages.ExtrasReadBack | lib/tree.js:206-218 | Reading a leaf's extra parameters back, in their written order, gives its duration when it is a number, the `error='yes'` marker exactly when its status is 3, and the escaped message exactly when the message is not empty. |
| Reporter.SpecFinishReadBack | lib/intellijReporter.js:166-181 | A spec's finish line reads back with the spec's duration and its formatted failure message (when not empty), and never carries the error marker, since a spec is passed, skipped or failed. |
| Messages.ReadHeadRender | lib/tree.js:75-101 | The text of a start or finish line reads back as the line's own command and node id, so the consumer can recover which node a line is about. |
| Decimal.IntToStringRoundTrip | lib/tree.js:208-209 | The decimal text written for a duration or a count reads back as the same integer, negative values included. |
| Decimal.NatToStringInjective | lib/tree.js:78 | Distinct node ids are written as distinct numerals. |
| Reporter.CreateStarted | lib/intellijReporter.js:11-13 | Creating and starting a node appends its start line. When the parent is the root, the root's start line is written again first, every time. |
| Cascade.FinishIfStartedIsPostOrder | lib/tree.js:46-54 | The cascade finishes exactly the pending nodes and writes their finish lines in post-order. Pending means the unfinished nodes below the node, children in creation order before their parent; finished subtrees contribute nothing. |
| Cascade.FinishIfStartedIdempotent | lib/tree.js:46-54 | A second cascade from the same node changes nothing and writes nothing. |
| Cascade.PendingDistinct | lib/tree.js:47-52 | The cascade never finishes a node twice. |
| Cascade.FinishIfStartedFinishesSubtree | lib/tree.js:48-51 | When no finished suite has an unfinished child, the cascade leaves no node below it unfinished. |
| TestTree.FinishIfStarted | lib/tree.js:46-54 | The cascade keeps the structural invariant and leaves every leaf finished. It changes no node and only appends to the log. The node is finished afterwards. The exact lines are given by `Cascade.FinishIfStartedIsPostOrder`. |
| TestTree.FinishChildren | lib/tree.js:48-50 | Finishing the children from a given index on keeps the structural invariant and changes no node. It only adds finished nodes and appends lines. |
| Reporter.GetOrCreateBrowserNode | lib/intellijReporter.js:7-16 | A registered browser id returns its node and changes nothing. Otherwise a `browser` suite named after the browser is created under the root, registered under the id and started, and the call fails only if the root is finished. |
| Reporter.BrowserNodeIdempotent | lib/intellijReporter.js:7-16 | Asking again for the same browser returns the same node, with no new id and no new line. |
| Reporter.ErrorLeaf | lib/intellijReporter.js:18-24 | A browser error adds one `Error` leaf of type `browserError` under the browser node. The leaf is started, then finished as `testFailed` with status 3, no duration and the error as its message. |
| Reporter.AddBrowserErrorNode | lib/intellijReporter.js:18-24 | A browser error fails exactly when its browser node is already finished, or, for a new browser, when the root is finished. On success it allocates one id, or two for a new browser. The last new node is the `Error` leaf, under the node registered for the browser id in the root's lookup map, with status 3 and the error as its message, and the last line is its `testFailed` finish. |
| RunInvariant.AddBrowserErrorNodeKeeps | lib/intellijReporter.js:18-24 | During a run, recording a browser error never throws and keeps the run invariant. |
| Reporter.WalkSuites | lib/intellijReporter.js:29-46 | The chain loop keeps the tree ready for the handlers. Ids only grow and no node is finished. The node it ends at is a suite, and lines are only appended. The visited path is given by `SuiteChain.WalkMatchesPlan`. |
| Reporter.GetOrCreateLowerSuiteNode | lib/intellijReporter.js:26-48 | Walking a spec's suite chain from its browser node keeps the tree ready and only appends lines. |
| SuiteChain.WalkMatchesPlan | lib/intellijReporter.js:26-48 | The chain loop ends at the suite reached by following the visited names through the lookup maps. It writes one diagnostic line per null name or read past the array. It leaves the caller's array as the plan's splicing does. |
| SuiteChain.WalkGrows | lib/intellijReporter.js:38-44 | Walking a chain only adds lookup entries: every registered name keeps its suite. |
| SuiteChain.WalkCreatesMissing | lib/intellijReporter.js:26-48 | The walk reuses the suites registered along the longest registered prefix of the visited names, and the next name is missing where that prefix ends. It allocates exactly one new id per remaining visited name, in visiting order. Each new id is a started suite named after its name, of type `suite`, registered under that name in the node the walk had reached, with its start line in the log. Its hint is the `.`-join of the array as it stood when the name was read, up to and including that name. |
| SuiteChain.RegisteredChainUnchanged | lib/intellijReporter.js:38-45 | A chain whose names are all registered along the way is walked without any change to the tree. |
| SuiteChain.LowerSuiteNodeIdempotent | lib/intellijReporter.js:26-48 | Walking the same chain without nulls again reaches the same suite and changes nothing. |
| SuiteChain.PlanWithoutNulls | lib/intellijReporter.js:29-46 | Without nulls the loop visits every name in order, writes no diagnostic, and leaves the array alone. |
| SuiteChain.NullInsideChain | lib/intellijReporter.js:28-36 | For `[A, null, B]` the loop visits only `A`, counts two nulls, and leaves the array as `[A, B]`. |
| SuiteChain.NullInsideChainWalk | lib/intellijReporter.js:27-36 | Walking `[A, null, B]` from a browser node ends at the suite under `A`, writes two diagnostic lines, and hands back `[A, B]`. |
| Reporter.CreateSpecNode | lib/intellijReporter.js:50-61 | Throws the duplicate error exactly when the suite's lookup map holds the spec name. Otherwise it fails only on a finished suite. It adds a started `test` leaf whose hint joins the suite names and the spec name, and it leaves the lookup map unchanged. |
| Reporter.DuplicateSpecRecordedTwice | lib/intellijReporter.js:51-58 | The same spec recorded twice in an open suite succeeds both times and makes two distinct leaves. |
| Reporter.SpecStatus | lib/intellijReporter.js:166-175 | Skipped gives 1 whatever the success flag says. Otherwise success gives 0 and failure gives 2. |
| Reporter.RecordSpec | lib/intellijReporter.js:165-181 | A spec leaf is created, given its status, duration and failure message, and finished at once. The last line is `testFinished` for a success and `testFailed` otherwise. It fails exactly when the name collides with a suite or the suite is finished. |
| Reporter.CountBrowser | lib/intellijReporter.js:156-163 | Only the first spec of each browser node adds the browser's total and lowers the count of unchecked browsers. The count line carrying the sum is written exactly when that count reaches zero. |
| RunInvariant.CountBrowserKeeps | lib/intellijReporter.js:156-163 | At most one count line is written per run. It is there exactly once as many distinct browser nodes have reported their first spec as there were browsers at run start (at least one). |
| Reporter.OnRunStart | lib/intellijReporter.js:132-140 | A run starts with a new tree, a zero total and the number of browsers as the unchecked count; nothing is written. |
| RunInvariant.OnRunStartEstablishes | lib/intellijReporter.js:132-140 | The run invariant holds after a run starts, whatever happened before. |
| Reporter.OnBrowserError | lib/intellijReporter.js:142-144 | Outside a run the handler throws for lack of a tree and changes nothing. During a run, output only grows. |
| RunInvariant.OnBrowserErrorKeeps | lib/intellijReporter.js:142-144 | A browser error keeps the run invariant and throws exactly when there is no run. |
| Reporter.OnBrowserLog | lib/intellijReporter.js:146-152 | The message is appended to the output as it is, inside a run or not, and the tree is untouched. |
| RunInvariant.OnBrowserLogKeeps | lib/intellijReporter.js:146-152 | A browser log line keeps the run invariant. |
| Reporter.OnSpecComplete | lib/intellijReporter.js:154-182 | Outside a run the handler throws and changes nothing. Otherwise output only grows, and lines written before a throw stay. |
| RunInvariant.OnSpecCompleteKeeps | lib/intellijReporter.js:154-182 | A spec result keeps the run invariant. The only exception it raises during a run is the duplicate-name one. |
| Reporter.OnRunComplete | lib/intellijReporter.js:184-187 | Completing a run drops the tree, keeps everything written, and throws exactly when there is no run. |
| RunCompletion.OnRunCompleteBalanced | lib/intellijReporter.js:184-187 | Under the run invariant, completion throws nothing. The run's lines are balanced: each node starts after its parent, finishes once after starting, never restarts after finishing, and every started node is finished. |
| BrowserTracking.ConnectionMapKeys | lib/intellijReporter.js:100-107 | The map built from the captured list holds exactly the ids of its entries. |
| BrowserTracking.ConnectionMapLastWins | lib/intellijReporter.js:102-107 | Each id is mapped to the name of the last entry carrying it. |
| BrowserTracking.OnBrowsersChange | lib/intellijReporter.js:95-113 | A single browser object, or a list with an entry whose id or name is missing or whose id equals its name, announces nothing and keeps the old map. Otherwise the new map is kept. |
| BrowserTracking.ReactionIsDifference | lib/intellijReporter.js:108-110 | The connected events name exactly the new ids, and the disconnected events exactly the dropped ids. Each event carries the name from the map it comes from, and no id is in both batches. |
| BrowserTracking.Announce | lib/intellijReporter.js:82-91 | An event is announced exactly for each id of the first map that the second map lacks. It carries the given kind and the first map's name for the id. |
| BrowserTracking.EventsReconcile | lib/intellijReporter.js:108-111 | Removing the disconnected ids from the old id set and adding the connected ones gives the new id set. |
| BrowserTracking.RepeatIsSilent | lib/intellijReporter.js:93-114 | The same change reported twice announces nothing the second time. |
| BrowserTracking.UnfilledEntryFreezes | lib/intellijReporter.js:103-105 | One entry whose id equals its name stops the whole change, whatever the other entries say. |
| CoverageSelection.GetAnyBrowser | lib/intellijCoverageReporter.js:133-141 | Returns the first browser of the list, or none for an empty list. |
| CoverageSelection.FindBrowserByName | lib/intellijCoverageReporter.js:153-162 | Returns the first browser whose name is a string starting with the prefix. It returns none exactly when no browser has such a name. |
| CoverageSelection.ContainsBrowser | lib/intellijCoverageReporter.js:143-151 | True exactly when the very same browser object is in the list. |
| CoverageSelection.FindBestBrowser | lib/intellijCoverageReporter.js:118-131 | With fewer than two browsers the choice is the first one. Otherwise it is the first browser carrying the most preferred of `Chrome `, `Firefox `, `Safari `, `Opera ` that any browser carries, and the first browser when none does. The result is always from the list. |
| CoverageSelection.BestIsFirstOfMinimalRank | lib/intellijCoverageReporter.js:122-130 | Among two or more browsers, the chosen one has the best preference rank, and every browser before it ranks worse. |
| CoverageSelection.PrefixesExclusive | lib/intellijCoverageReporter.js:122 | No name starts with two of the preferred prefixes. |
| CoverageSelection.OnRunStart | lib/intellijCoverageReporter.js:79-86 | Remembers the best browser and forwards a list holding just that browser, or an empty list when there is none. |
| CoverageSelection.Forwards | lib/intellijCoverageReporter.js:88-100 | A spec or browser-complete event is passed on exactly when it comes from the remembered browser. |
| CoverageSelection.OnRunComplete | lib/intellijCoverageReporter.js:102-115 | Completion is forwarded, with just the remembered browser, exactly when one was remembered and it is among the completed browsers. |
| CoverageSelection.StartThenComplete | lib/intellijCoverageReporter.js:79-115 | A run that completes with the browsers it started with collects coverage for exactly one of them, unless there were none. |
| CoverageSelection.ReportCoverageStartupStatus | lib/intellijCoverageReporter.js:53-62 | The specified flag is passed through. A missing `found` counts as found, and any other value is passed through. |
| CoverageSelection.ConstructorStartupStatus | lib/intellijCoverageReporter.js:41-51 | The constructor always reports the coverage reporter as specified, and as found exactly when Karma's coverage reporter could be looked up. |

## Left out

- The attribute escaping of `escapeUtil` and the list joining of `intellijUtil.joinList` are function parameters. Their code is not part of this model, and no property depends on what they do.
- The base name of the config path and `cli.getConfigFile()` are not modelled: the root's name and the config path are parameters of `TestTree.NewTree` and `Reporter.OnRunStart`.
- The `enteredTheMatrix` line written on the next tick after a run starts is not modelled, because it is asynchronous timing.
- `util.inspect` of a non-string browser log is not modelled; browser logs are strings.
- `console.error` of the null-suite message is not modelled, because it goes to the process's error stream, not to the sink.
- `formatError` is a function parameter supplied by Karma.
- `sendIntellijEvent` is modelled as the returned sets of events. The order in which JavaScript's `for-in` visits the keys is not modelled.
- `findLcovInfoFile`, the one-second `setTimeout` and the coverage emitter's `exit` event are not modelled, because they are asynchronous file-system work.
- The delegation to Karma's coverage reporter (`findKarmaCoverageReporterConstructor`, `init`) is not modelled; only the arguments forwarded to it are.
- `FileListUpdater`, the global emitter subscription and lib/intellij.conf.js are not modelled, because they are configuration plumbing.
- `typeof duration === 'number'` is modelled as an optional integer; non-integer and NaN durations are not modelled.
- Lookup maps are maps from strings. JavaScript object-key quirks such as `__proto__` are not modelled.
- Browser ids and names that are not strings are modelled as missing.
- Reporter.OnRunComplete: requires every leaf to be finished. In JavaScript an unfinished leaf would make the cascade crash; `RunInvariant` proves that this never happens under the handlers.
- Reporter.AddBrowserErrorNode: the failure condition for a new browser is stated only for trees whose finished ids are all nodes. A new node is never finished in the source, and the run invariant guarantees this condition.
- Reporter.FailureMessage: only the concatenation of the formatted logs is modelled. The text comes from the `formatError` parameter.
- Messages.Render: its text follows the protocol by definition. The proved property about it is that the command and node id read back (`Messages.ReadHeadRender`); the rest of the text is not parsed back.
- Karma's ordering and interleaving of events is not modelled; each handler is a separate step on the state.
