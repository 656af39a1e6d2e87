/** The IntelliJ reporter of lib/intellijReporter.js: it turns Karma's
    run/browser/spec events into operations on the test-event tree. */
module Reporter {
  import opened Base
  import opened Messages
  import opened TestTree

  /** A Karma browser: its connection id, display name, and the
      `lastResult.total` it reports. */
  datatype Browser = Browser(id: string, name: string, total: int)

  /** A spec result. `suite` is the describe-chain, outermost first, and may
      hold nulls; `time` is `None` when it is not a number. */
  datatype SpecResult = SpecResult(suite: seq<Option<string>>, description: string,
                                   success: bool, skipped: bool, time: Option<int>,
                                   log: seq<string>)

  /** `intellijUtil.joinList(list, from, to, separator)`, whose rules live
      outside this model. */
  type JoinList = (seq<Option<string>>, int, int, string) -> string

  /** `formatError(log, '\t')`, supplied by Karma. */
  type FormatError = string -> string

  /** What an event handler can throw. */
  datatype Thrown =
    | TreeError(error: Error)  // from addChild or a leaf finish
    | SpecAlreadyCreated       // createSpecNode found the name in the lookup map
    | NoTree                   // an event outside a run: `tree` is null

  /** The state of one run: the tree, the counters behind the `testCount`
      line, and the browser nodes already counted (those carrying
      `checkedForTotalTestCount`). */
  datatype Run = Run(tree: Tree, totalTestCount: int, uncheckedBrowserCount: int, counted: set<nat>)

  /** `past` holds the lines of earlier runs; the current run's lines are in
      its tree's log. */
  datatype Reporter = Reporter(past: seq<Line>, run: Option<Run>)

  /** The state after an event, and the exception it threw, if any. Effects
      made before a throw are kept, as in JavaScript. */
  datatype Step = Step(reporter: Reporter, thrown: Option<Thrown>)

  /** Everything written to the sink so far. */
  function Output(r: Reporter): seq<Line> {
    r.past + (if r.run.Some? then r.run.value.tree.log else [])
  }

  /** Every lookup map names suites only: the reporter registers browser and
      suite nodes, never spec leaves. */
  ghost predicate LookupsAreSuites(t: Tree) {
    forall p, k {:trigger t.nodes[p].body.lookup[k]} ::
      IsSuite(t, p) && k in t.nodes[p].body.lookup ==> IsSuite(t, t.nodes[p].body.lookup[k])
  }

  /** What the handlers need of the tree so that they cannot crash. */
  ghost predicate Ready(t: Tree) {
    Valid(t) && LookupsAreSuites(t)
  }

  // ---------------------------------------------------------------------
  // Creating a node: addChild, optionally register it, writeStartMessage

  /** `addChild` followed, for suites, by `lookupMap[key] = child`. */
  function AddRegistered(t: Tree, p: nat, name: string, isSuite: bool, nodeType: string,
                         hint: Option<string>, key: Option<string>): (r: Result<(Tree, nat), Error>)
    requires Ready(t) && IsSuite(t, p)
    requires key.Some? ==> isSuite
    ensures r.Failure? <==> p in t.finished
    ensures r.Success? ==>
      var (t', c) := r.value;
      && c == t.nextId && t'.nextId == t.nextId + 1
      && Ready(t') && t'.nodes.Keys == t.nodes.Keys + {c}
      && t'.nodes[c] == NewNode(p, name, isSuite, Some(nodeType), hint)
      && IsSuite(t', p) && t'.nodes[p].parent == t.nodes[p].parent
      && t'.nodes[p].body.children == t.nodes[p].body.children + [c]
      && t'.nodes[p].body.lookup == (if key.Some? then t.nodes[p].body.lookup[key.value := c]
                                     else t.nodes[p].body.lookup)
      && (forall x :: x in t.nodes && x != p ==> t'.nodes[x] == t.nodes[x])
      && t'.finished == t.finished && t'.log == t.log
  {
    assert t.nextId !in t.nodes;
    match AddChild(t, p, name, isSuite, Some(nodeType), hint)
    case Failure(e) => Failure(e)
    case Success((t1, c)) =>
      var t2 := if key.Some? then Register(t1, p, key.value, c) else t1;
      LookupsAfterAdd(t, t2, p, c, key);
      Success((t2, c))
  }

  /** Adding node `c` under `p`, registered under `key` only if it is a
      suite, keeps every lookup entry pointing at a suite. */
  lemma LookupsAfterAdd(t: Tree, t2: Tree, p: nat, c: nat, key: Option<string>)
    requires LookupsAreSuites(t) && IsSuite(t, p) && c !in t.nodes
    requires t2.nodes.Keys == t.nodes.Keys + {c} && IsSuite(t2, p)
    requires t2.nodes[c].body.Suite? ==> t2.nodes[c].body.lookup == map[]
    requires key.Some? ==> t2.nodes[c].body.Suite?
    requires t2.nodes[p].body.lookup == (if key.Some? then t.nodes[p].body.lookup[key.value := c]
                                         else t.nodes[p].body.lookup)
    requires forall x :: x in t.nodes && x != p ==> t2.nodes[x] == t.nodes[x]
    ensures LookupsAreSuites(t2)
  {
    forall q, k | IsSuite(t2, q) && k in t2.nodes[q].body.lookup
      ensures IsSuite(t2, t2.nodes[q].body.lookup[k])
    {
      if !(q == p && key.Some? && k == key.value) {
        assert q != c;
        assert IsSuite(t, q) && k in t.nodes[q].body.lookup;
      }
    }
  }

  /** `addChild`, the registration, then `writeStartMessage`. */
  function CreateStarted(t: Tree, p: nat, name: string, isSuite: bool, nodeType: string,
                         hint: Option<string>, key: Option<string>): (r: Result<(Tree, nat), Error>)
    requires Ready(t) && IsSuite(t, p)
    requires key.Some? ==> isSuite
    ensures r.Failure? <==> p in t.finished
    ensures r.Success? ==>
      var (t', c) := r.value;
      && c == t.nextId && t'.nextId == t.nextId + 1
      && Ready(t') && t'.nodes.Keys == t.nodes.Keys + {c}
      && t'.nodes[c] == NewNode(p, name, isSuite, Some(nodeType), hint)
      && IsSuite(t', p) && t'.nodes[p].body.children == t.nodes[p].body.children + [c]
      && t'.nodes[p].body.lookup == (if key.Some? then t.nodes[p].body.lookup[key.value := c]
                                     else t.nodes[p].body.lookup)
      && (forall x :: x in t.nodes && x != p ==> t'.nodes[x] == t.nodes[x])
      && t'.finished == t.finished
      && t'.log == t.log + (if p == RootId then [StartLineOf(t.nodes[RootId], RootId)] else [])
                         + [StartLineOf(t'.nodes[c], c)]
  {
    match AddRegistered(t, p, name, isSuite, nodeType, hint, key)
    case Failure(e) => Failure(e)
    case Success((t1, c)) =>
      var t2 := WriteStart(t1, c);
      assert Ready(t2) by {
        assert t2.nodes == t1.nodes;
      }
      Success((t2, c))
  }

  /** `setStatus` followed by `writeFinishMessage` on a leaf, for the four
      statuses the reporter uses: status 0 finishes as passed, the rest as
      failed. */
  function RecordLeaf(t: Tree, x: nat, status: int, duration: Option<int>, failureMsg: string): (t': Tree)
    requires Ready(t) && x in t.nodes && t.nodes[x].body.Leaf? && 0 <= status <= 3
    ensures Ready(t') && t'.nextId == t.nextId && t'.finished == t.finished + {x}
    ensures t'.nodes == t.nodes[x := t.nodes[x].(body := Leaf(Some(status), duration, failureMsg))]
    ensures t'.log == t.log + [FinishLine(if status == 0 then "testFinished" else "testFailed", x,
                                          LeafExtras(duration, status, failureMsg))]
  {
    var t1 := SetStatus(t, x, status, duration, failureMsg);
    assert t1.nodes == t.nodes[x := t.nodes[x].(body := Leaf(Some(status), duration, failureMsg))];
    assert Ready(t1) by {
      assert forall q :: IsSuite(t1, q) <==> IsSuite(t, q);
    }
    WriteFinish(t1, x).value
  }

  // ---------------------------------------------------------------------
  // Browser nodes

  /** `getOrCreateBrowserNode`: browser nodes hang under the root and are
      registered in the root's lookup map under the browser's id. */
  function GetOrCreateBrowserNode(t: Tree, browser: Browser): (r: Result<(Tree, nat), Error>)
    requires Ready(t)
    ensures browser.id in t.nodes[RootId].body.lookup ==>
      r == Success((t, t.nodes[RootId].body.lookup[browser.id]))
    ensures browser.id !in t.nodes[RootId].body.lookup ==>
      (r.Failure? <==> RootId in t.finished)
    ensures r.Success? ==> Ready(r.value.0) && IsSuite(r.value.0, r.value.1) && t.log <= r.value.0.log
    ensures r.Success? ==>
      var (t', b) := r.value;
      && RootId in t'.nodes && t'.nodes[RootId].body.Suite?
      && browser.id in t'.nodes[RootId].body.lookup && t'.nodes[RootId].body.lookup[browser.id] == b
      && t'.finished == t.finished
      && (browser.id !in t.nodes[RootId].body.lookup ==>
            && b == t.nextId && t'.nextId == t.nextId + 1
            && t'.nodes[b] == NewNode(RootId, browser.name, true, Some("browser"), None)
            && t'.log == t.log + [StartLineOf(t.nodes[RootId], RootId), StartLineOf(t'.nodes[b], b)])
  {
    var lookup := t.nodes[RootId].body.lookup;
    if browser.id in lookup then Success((t, lookup[browser.id]))
    else CreateStarted(t, RootId, browser.name, true, "browser", None, Some(browser.id))
  }

  /** Asking again for the same browser id returns the node already made and
      changes nothing: no new id, no line. */
  lemma BrowserNodeIdempotent(t: Tree, browser: Browser)
    requires Ready(t) && GetOrCreateBrowserNode(t, browser).Success?
    ensures var (t1, b) := GetOrCreateBrowserNode(t, browser).value;
      GetOrCreateBrowserNode(t1, browser) == Success((t1, b))
  {
    var (t1, b) := GetOrCreateBrowserNode(t, browser).value;
    assert browser.id in t1.nodes[RootId].body.lookup;
  }

  /** The error leaf of `addBrowserErrorNode` under browser node `b`:
      named 'Error', of type 'browserError', started, given status 3 with the
      error as its message, and finished. */
  function ErrorLeaf(t: Tree, b: nat, error: string): (r: Result<(Tree, nat), Error>)
    requires Ready(t) && IsSuite(t, b)
    ensures r.Failure? <==> b in t.finished
    ensures r.Success? ==> t.log <= r.value.0.log
    ensures r.Success? ==>
      var (t', e) := r.value;
      && Ready(t') && e == t.nextId && e in t'.nodes && t'.finished == t.finished + {e}
      && t'.nodes[e] == Node(b, "Error", Some("browserError"), None, Leaf(Some(3), None, error))
      && t'.log == t.log + (if b == RootId then [StartLineOf(t.nodes[RootId], RootId)] else [])
                         + [StartLineOf(NewNode(b, "Error", false, Some("browserError"), None), e),
                            FinishLine("testFailed", e, LeafExtras(None, 3, error))]
  {
    match CreateStarted(t, b, "Error", false, "browserError", None, None)
    case Failure(err) => Failure(err)
    case Success((t1, e)) => Success((RecordLeaf(t1, e, 3, None, error), e))
  }

  /** `addBrowserErrorNode`: the error leaf goes under the browser's node,
      which is created first when missing. */
  function AddBrowserErrorNode(t: Tree, browser: Browser, error: string): (r: Result<Tree, Error>)
    requires Ready(t)
    ensures browser.id in t.nodes[RootId].body.lookup ==>
      (r.Failure? <==> t.nodes[RootId].body.lookup[browser.id] in t.finished)
    ensures browser.id !in t.nodes[RootId].body.lookup && t.finished <= t.nodes.Keys ==>
      (r.Failure? <==> RootId in t.finished)
    ensures r.Success? ==> Ready(r.value) && t.log < r.value.log
    ensures r.Success? ==>
      && r.value.nextId == t.nextId + (if browser.id in t.nodes[RootId].body.lookup then 1 else 2)
      && browser.id in r.value.nodes[RootId].body.lookup
      && r.value.nodes[r.value.nextId - 1] == Node(r.value.nodes[RootId].body.lookup[browser.id], "Error",
                                                   Some("browserError"), None, Leaf(Some(3), None, error))
      && r.value.log[|r.value.log| - 1] == FinishLine("testFailed", r.value.nextId - 1, LeafExtras(None, 3, error))
  {
    match GetOrCreateBrowserNode(t, browser)
    case Failure(err) => Failure(err)
    case Success((t1, b)) =>
      match ErrorLeaf(t1, b, error)
      case Failure(err) => Failure(err)
      case Success((t2, _)) => Success(t2)
  }

  // ---------------------------------------------------------------------
  // Suite chains

  /** The outcome of the suite-chain loop: the innermost suite node and the
      caller's name array after the loop's splicing, or the exception thrown
      with the effects made before it. */
  datatype Walked =
    | Walked(tree: Tree, node: nat, names: seq<Option<string>>)
    | Aborted(error: Error, tree: Tree)

  /** `suiteNames.splice(i, 1)`: no effect past the end. */
  function Splice(names: seq<Option<string>>, i: nat): (r: seq<Option<string>>)
    ensures i < |names| ==> |r| == |names| - 1 && r == names[..i] + names[i + 1..]
    ensures i >= |names| ==> r == names
  {
    if i < |names| then names[..i] + names[i + 1..] else names
  }

  /** One pass of the loop of `getOrCreateLowerSuiteNode` from index `i`.
      `len` is the array length read before the loop. A null name (or a read
      past the end of the shrunken array) writes the diagnostic line and is
      spliced out, and the loop still moves on to `i + 1`. */
  function WalkSuites(t: Tree, node: nat, names: seq<Option<string>>, i: nat, len: nat,
                      join: JoinList): (w: Walked)
    requires Ready(t) && IsSuite(t, node)
    ensures Ready(w.tree) && t.nextId <= w.tree.nextId
    ensures w.Walked? ==> IsSuite(w.tree, w.node)
    ensures t.log <= w.tree.log && w.tree.finished == t.finished
    decreases len - i
  {
    if i >= len then Walked(t, node, names)
    else if i >= |names| || names[i].None? then
      WalkSuites(t.(log := t.log + [NullSuiteName]), node, Splice(names, i), i + 1, len, join)
    else
      var name := names[i].value;
      var lookup := t.nodes[node].body.lookup;
      if name in lookup then WalkSuites(t, lookup[name], names, i + 1, len, join)
      else
        var hint := join(names, 0, i + 1, ".");
        match CreateStarted(t, node, name, true, "suite", Some(hint), Some(name))
        case Failure(e) => Aborted(e, t)
        case Success((t', c)) => WalkSuites(t', c, names, i + 1, len, join)
  }

  /** The walk step that meets a registered suite continues from it. */
  lemma WalkFoundUnfold(t: Tree, node: nat, names: seq<Option<string>>, i: nat, len: nat, join: JoinList)
    requires Ready(t) && IsSuite(t, node) && i < len && i < |names| && names[i].Some?
    requires names[i].value in t.nodes[node].body.lookup
    ensures IsSuite(t, t.nodes[node].body.lookup[names[i].value])
    ensures WalkSuites(t, node, names, i, len, join)
         == WalkSuites(t, t.nodes[node].body.lookup[names[i].value], names, i + 1, len, join)
  {
  }

  /** The walk step that creates a missing suite continues from it. */
  lemma WalkCreateUnfold(t: Tree, node: nat, names: seq<Option<string>>, i: nat, len: nat, join: JoinList,
                         t': Tree, c: nat)
    requires Ready(t) && IsSuite(t, node) && i < len && i < |names| && names[i].Some?
    requires names[i].value !in t.nodes[node].body.lookup
    requires CreateStarted(t, node, names[i].value, true, "suite", Some(join(names, 0, i + 1, ".")),
                           Some(names[i].value)) == Success((t', c))
    ensures Ready(t') && IsSuite(t', c) && IsSuite(t', node)
    ensures t'.nodes[c] == NewNode(node, names[i].value, true, Some("suite"), Some(join(names, 0, i + 1, ".")))
    ensures t'.nodes[node].body.lookup == t.nodes[node].body.lookup[names[i].value := c]
    ensures WalkSuites(t, node, names, i, len, join) == WalkSuites(t', c, names, i + 1, len, join)
  {
  }

  /** `getOrCreateLowerSuiteNode(browserNode, suiteNames, write)`. */
  function GetOrCreateLowerSuiteNode(t: Tree, browserNode: nat, suiteNames: seq<Option<string>>,
                                     join: JoinList): (w: Walked)
    requires Ready(t) && IsSuite(t, browserNode)
    ensures Ready(w.tree) && t.log <= w.tree.log
  {
    WalkSuites(t, browserNode, suiteNames, 0, |suiteNames|, join)
  }

  // ---------------------------------------------------------------------
  // Spec leaves

  /** `createSpecNode`: throws when the suite's lookup map already holds the
      spec name (only suites are ever registered, so only a same-named suite
      collides); otherwise adds a started 'test' leaf whose hint joins the
      suite names and the spec name, and does not register it. */
  function CreateSpecNode(t: Tree, suiteNode: nat, suiteNames: seq<Option<string>>, specName: string,
                          join: JoinList): (r: Result<(Tree, nat), Thrown>)
    requires Ready(t) && IsSuite(t, suiteNode)
    ensures r.Failure? <==> specName in t.nodes[suiteNode].body.lookup || suiteNode in t.finished
    ensures r.Failure? && specName in t.nodes[suiteNode].body.lookup ==> r.error == SpecAlreadyCreated
    ensures r.Success? ==>
      var (t', s) := r.value;
      var names := suiteNames + [Some(specName)];
      && s == t.nextId && Ready(t') && s in t'.nodes && IsSuite(t', suiteNode)
      && t'.nodes[s] == NewNode(suiteNode, specName, false, Some("test"),
                                Some(join(names, 0, |names|, ".")))
      && t'.nodes[suiteNode].body.lookup == t.nodes[suiteNode].body.lookup
      && t'.finished == t.finished
      && t'.log == t.log + (if suiteNode == RootId then [StartLineOf(t.nodes[RootId], RootId)] else [])
                         + [StartLineOf(t'.nodes[s], s)]
  {
    if specName in t.nodes[suiteNode].body.lookup then Failure(SpecAlreadyCreated)
    else
      var names := suiteNames + [Some(specName)];
      var hint := join(names, 0, |names|, ".");
      match CreateStarted(t, suiteNode, specName, false, "test", Some(hint), None)
      case Failure(e) => Failure(TreeError(e))
      case Success(v) => Success(v)
  }

  /** The status `onSpecComplete` gives a spec: skipped wins over success. */
  function SpecStatus(result: SpecResult): (status: int)
    ensures status == 1 <==> result.skipped
    ensures status == 0 <==> !result.skipped && result.success
    ensures status == 2 <==> !result.skipped && !result.success
  {
    if result.skipped then 1 else if result.success then 0 else 2
  }

  /** The concatenation of the formatted failure logs. */
  function FailureMessage(log: seq<string>, format: FormatError): string
  {
    if log == [] then "" else FailureMessage(log[..|log| - 1], format) + format(log[|log| - 1])
  }

  // ---------------------------------------------------------------------
  // Event handlers

  /** `onRunStart`: a fresh tree and fresh counters. The `enteredTheMatrix`
      line, written on the next tick, is not modelled. */
  function OnRunStart(r: Reporter, browsers: seq<Browser>, rootName: string, configFilePath: string): (r': Reporter)
    ensures Output(r') == Output(r)
    ensures r'.run.Some? && Ready(r'.run.value.tree)
    ensures r'.run.value == Run(NewTree(rootName, configFilePath), 0, |browsers|, {})
  {
    Reporter(Output(r), Some(Run(NewTree(rootName, configFilePath), 0, |browsers|, {})))
  }

  /** `onBrowserError`. */
  function OnBrowserError(r: Reporter, browser: Browser, error: string): (s: Step)
    requires r.run.Some? ==> Ready(r.run.value.tree)
    ensures r.run.None? ==> s == Step(r, Some(NoTree))
    ensures s.reporter.past == r.past
    ensures s.reporter.run.Some? ==> Ready(s.reporter.run.value.tree)
    ensures s.thrown.None? ==> Output(r) <= Output(s.reporter)
  {
    match r.run
    case None => Step(r, Some(NoTree))
    case Some(run) =>
      match AddBrowserErrorNode(run.tree, browser, error)
      case Failure(e) => Step(r, Some(TreeError(e)))
      case Success(t') =>
        Step(Reporter(r.past, Some(run.(tree := t'))), None)
  }

  /** The `checkedForTotalTestCount` bookkeeping: the first spec of each
      browser node adds its total, and the count line is written when the
      last expected browser is counted. */
  function CountBrowser(run: Run, b: nat, browser: Browser): (run': Run)
    ensures run'.tree.nodes == run.tree.nodes && run'.tree.finished == run.tree.finished
    ensures run'.tree.nextId == run.tree.nextId
    ensures b in run.counted ==> run' == run
    ensures b !in run.counted ==>
      && run'.counted == run.counted + {b}
      && run'.totalTestCount == run.totalTestCount + browser.total
      && run'.uncheckedBrowserCount == run.uncheckedBrowserCount - 1
      && run'.tree.log == run.tree.log + (if run.uncheckedBrowserCount == 1
                                            then [TestCount(run'.totalTestCount)] else [])
  {
    if b in run.counted then run
    else
      var total := run.totalTestCount + browser.total;
      var unchecked := run.uncheckedBrowserCount - 1;
      var t := run.tree;
      var t' := if unchecked == 0 then t.(log := t.log + [TestCount(total)]) else t;
      Run(t', total, unchecked, run.counted + {b})
  }

  /** The part of `onSpecComplete` after the suite chain: create the spec
      leaf, set its status and message, and finish it. Nothing changes when
      the leaf cannot be created. */
  function RecordSpec(t: Tree, node: nat, names: seq<Option<string>>, result: SpecResult,
                      join: JoinList, format: FormatError): (r: Result<(Tree, nat), Thrown>)
    requires Ready(t) && IsSuite(t, node)
    ensures r.Failure? <==> result.description in t.nodes[node].body.lookup || node in t.finished
    ensures r.Success? ==>
      var (t', s) := r.value;
      && Ready(t') && s == t.nextId && s in t'.nodes && t'.finished == t.finished + {s}
      && t'.nodes[s].parent == node && t'.nodes[s].name == result.description
      && t'.nodes[s].body == Leaf(Some(SpecStatus(result)), result.time, FailureMessage(result.log, format))
      && IsSuite(t', node) && t'.nodes[node].body.lookup == t.nodes[node].body.lookup
      && t.log < t'.log
      && t'.log[|t'.log| - 1] == FinishLine(if result.skipped || !result.success then "testFailed" else "testFinished",
                                            s, LeafExtras(result.time, SpecStatus(result), FailureMessage(result.log, format)))
  {
    match CreateSpecNode(t, node, names, result.description, join)
    case Failure(thrown) => Failure(thrown)
    case Success((t1, s)) =>
      Success((RecordLeaf(t1, s, SpecStatus(result), result.time, FailureMessage(result.log, format)), s))
  }

  /** A spec's finish line reads back with its duration, its failure
      message, and never the error marker: a spec is passed, skipped or
      failed, and only an error (status 3) carries the marker. */
  lemma SpecFinishReadBack(t: Tree, node: nat, names: seq<Option<string>>, result: SpecResult,
                           join: JoinList, format: FormatError, esc: Escape)
    requires Ready(t) && IsSuite(t, node)
    requires RecordSpec(t, node, names, result, join, format).Success?
    ensures var t' := RecordSpec(t, node, names, result, join, format).value.0;
            var message := FailureMessage(result.log, format);
            ReadExtras(ExtraParams(t'.log[|t'.log| - 1].extras, esc).GetOr(""))
              == ExtrasRead(result.time, false, if message == "" then None else Some(esc(message)))
  {
    ExtrasReadBack(result.time, SpecStatus(result), FailureMessage(result.log, format), esc);
  }

  /** Spec leaves are not registered, so the duplicate check does not see
      them: the same spec recorded twice in the same suite makes two leaves
      and throws nothing. */
  lemma DuplicateSpecRecordedTwice(t: Tree, node: nat, names: seq<Option<string>>, result: SpecResult,
                                   join: JoinList, format: FormatError)
    requires Ready(t) && IsSuite(t, node) && node !in t.finished
    requires result.description !in t.nodes[node].body.lookup
    ensures RecordSpec(t, node, names, result, join, format).Success?
    ensures var (t1, s1) := RecordSpec(t, node, names, result, join, format).value;
      && RecordSpec(t1, node, names, result, join, format).Success?
      && RecordSpec(t1, node, names, result, join, format).value.1 == s1 + 1
  {
    var r1 := RecordSpec(t, node, names, result, join, format);
    var t1 := r1.value.0;
    assert node in t.nodes && node < t.nextId;
    assert node !in t1.finished;
  }

  /** The run-level part of `onSpecComplete`: find or create the browser
      node, count the browser, walk or create the suite chain, then record the
      spec. */
  function SpecInRun(run: Run, browser: Browser, result: SpecResult, join: JoinList,
                     format: FormatError): (s: (Run, Option<Thrown>))
    requires Ready(run.tree)
    ensures Ready(s.0.tree) && run.tree.log <= s.0.tree.log
  {
    match GetOrCreateBrowserNode(run.tree, browser)
    case Failure(e) => (run, Some(TreeError(e)))
    case Success((t1, b)) =>
      var run1 := CountBrowser(run.(tree := t1), b, browser);
      AfterCount(run1, b, result, join, format)
  }

  /** `onSpecComplete` once the browser has been counted. */
  function AfterCount(run: Run, b: nat, result: SpecResult, join: JoinList,
                      format: FormatError): (s: (Run, Option<Thrown>))
    requires Ready(run.tree) && IsSuite(run.tree, b)
    ensures Ready(s.0.tree) && run.tree.log <= s.0.tree.log
    ensures s.0.counted == run.counted && s.0.totalTestCount == run.totalTestCount
    ensures s.0.uncheckedBrowserCount == run.uncheckedBrowserCount
  {
    match GetOrCreateLowerSuiteNode(run.tree, b, result.suite, join)
    case Aborted(e, t2) => (run.(tree := t2), Some(TreeError(e)))
    case Walked(t2, node, names) =>
      match RecordSpec(t2, node, names, result, join, format)
      case Failure(thrown) => (run.(tree := t2), Some(thrown))
      case Success((t3, _)) => (run.(tree := t3), None)
  }

  /** `onSpecComplete`. */
  function OnSpecComplete(r: Reporter, browser: Browser, result: SpecResult, join: JoinList,
                          format: FormatError): (s: Step)
    requires r.run.Some? ==> Ready(r.run.value.tree)
    ensures r.run.None? ==> s == Step(r, Some(NoTree))
    ensures s.reporter.past == r.past
    ensures s.reporter.run.Some? ==> Ready(s.reporter.run.value.tree)
    ensures Output(r) <= Output(s.reporter)
  {
    match r.run
    case None => Step(r, Some(NoTree))
    case Some(run) =>
      var (run', thrown) := SpecInRun(run, browser, result, join, format);
      Step(Reporter(r.past, Some(run')), thrown)
  }

  /** `onBrowserLog`: the message goes to the sink as it is, inside a run or
      not. Non-string messages, which Karma formats first, are not modelled. */
  function OnBrowserLog(r: Reporter, log: string): (r': Reporter)
    ensures Output(r') == Output(r) + [BrowserLog(log)]
    ensures r'.run.Some? <==> r.run.Some?
    ensures r.run.Some? ==> r'.past == r.past && r'.run.value.tree.nodes == r.run.value.tree.nodes
  {
    match r.run
    case None => r.(past := r.past + [BrowserLog(log)])
    case Some(run) =>
      var t := run.tree;
      Reporter(r.past, Some(run.(tree := t.(log := t.log + [BrowserLog(log)]))))
  }

  /** `onRunComplete`: finish the root, which cascades over everything still
      open, and drop the tree. */
  function OnRunComplete(r: Reporter): (s: Step)
    requires r.run.Some? ==> Ready(r.run.value.tree) && LeavesFinished(r.run.value.tree)
    ensures r.run.None? <==> s.thrown.Some?
    ensures s.reporter.run.None?
    ensures Output(r) <= Output(s.reporter)
  {
    match r.run
    case None => Step(r, Some(NoTree))
    case Some(run) =>
      var t' := FinishIfStarted(run.tree, RootId);
      Step(Reporter(r.past + t'.log, None), None)
  }
}
