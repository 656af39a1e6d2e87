/** The invariant the reporter keeps between events of a run, and the proof
    that a completed run's output is balanced. */
module RunInvariant {
  import opened Base
  import opened Messages
  import opened TestTree
  import opened Cascade
  import opened Protocol
  import opened Reporter

  /** Every start or finish line names a node of the tree. */
  ghost predicate LogNamesNodes(t: Tree) {
    forall j :: 0 <= j < |t.log| && (t.log[j].StartLine? || t.log[j].FinishLine?) ==> t.log[j].id in t.nodes
  }

  /** Every node below the root has started; the root has once it has a
      child. */
  ghost predicate NodesStarted(t: Tree) {
    && (forall x :: x in t.nodes && x != RootId ==> Started(t.log, x))
    && (RootId in t.nodes && Kids(t.nodes[RootId]) != [] ==> Started(t.log, RootId))
  }

  /** A node is finished exactly when its finish line has been written. */
  ghost predicate FinishMatchesLog(t: Tree) {
    forall x :: x in t.nodes ==> (x in t.finished <==> Finished(t.log, x))
  }

  /** Between events the finished nodes are exactly the leaves; within an
      event the `open` leaves are still being recorded. */
  ghost predicate FinishedAreLeaves(t: Tree, open: set<nat>) {
    && t.finished <= t.nodes.Keys
    && forall x :: x in t.nodes ==> (x in t.finished <==> !IsSuite(t, x) && x !in open)
  }

  ghost predicate TreeInv(t: Tree, open: set<nat>) {
    && Ready(t) && FinishedAreLeaves(t, open) && LogNamesNodes(t) && NodesStarted(t)
    && FinishMatchesLog(t) && WellFormed(t.log)
  }

  /** `log` only grows, and by lines other than the test count. */
  ghost predicate Quiet(log: seq<Line>, log': seq<Line>) {
    log <= log' && forall j :: |log| <= j < |log'| ==> !log'[j].TestCount?
  }

  /** The number of test-count lines. */
  function CountLines(log: seq<Line>): nat {
    if log == [] then 0
    else CountLines(log[..|log| - 1]) + (if log[|log| - 1].TestCount? then 1 else 0)
  }

  /** The count line has been written exactly once as many browser nodes have
      reported their first spec as there were browsers at run start (and there
      was one at least). Distinct browser nodes are counted, not the browsers
      listed at run start. */
  ghost predicate CountInv(run: Run) {
    var unchecked := run.uncheckedBrowserCount;
    CountLines(run.tree.log) == (if unchecked <= 0 && unchecked + |run.counted| >= 1 then 1 else 0)
  }

  ghost predicate RunInv(run: Run) {
    TreeInv(run.tree, {}) && CountInv(run)
  }

  ghost predicate Inv(r: Reporter) {
    r.run.Some? ==> RunInv(r.run.value)
  }

  // ---------------------------------------------------------------------
  // Tree steps

  lemma UnknownSilent(t: Tree, x: nat)
    requires LogNamesNodes(t) && x !in t.nodes
    ensures !Started(t.log, x) && !Finished(t.log, x)
  {
    forall i | 0 <= i < |t.log|
      ensures !StartsNode(t.log[i], x) && !FinishesNode(t.log[i], x)
    {
    }
  }

  lemma {:induction false} QuietCount(log: seq<Line>, log': seq<Line>)
    requires Quiet(log, log')
    ensures CountLines(log') == CountLines(log)
    decreases |log'|
  {
    if |log'| > |log| {
      var front := log'[..|log'| - 1];
      assert log <= front;
      QuietCount(log, front);
      assert !log'[|log'| - 1].TestCount?;
    } else {
      assert log' == log;
    }
  }

  lemma QuietTrans(a: seq<Line>, b: seq<Line>, c: seq<Line>)
    requires Quiet(a, b) && Quiet(b, c)
    ensures Quiet(a, c)
  {
    assert forall j :: |a| <= j < |b| ==> c[j] == b[j];
  }

  /** A line other than a start or a finish keeps the invariant. */
  lemma AppendOtherKeeps(t: Tree, l: Line, open: set<nat>)
    requires TreeInv(t, open) && !l.StartLine? && !l.FinishLine?
    ensures TreeInv(t.(log := t.log + [l]), open)
  {
    AppendOther(t.log, l);
    var t' := t.(log := t.log + [l]);
    assert Ready(t') by {
      assert forall q :: IsSuite(t', q) <==> IsSuite(t, q);
    }
  }

  /** The log part of starting a new child `c` of `p`. */
  lemma StartChildLog(t: Tree, p: nat, c: nat, line: Line, log': seq<Line>)
    requires TreeInv(t, {}) && IsSuite(t, p) && c !in t.nodes && c != RootId
    requires line.StartLine? && line.id == c && line.parentId == p
    requires log' == t.log + (if p == RootId then [StartLineOf(t.nodes[RootId], RootId)] else []) + [line]
    ensures WellFormed(log') && Quiet(t.log, log')
    ensures forall j :: |t.log| <= j < |log'| && (log'[j].StartLine? || log'[j].FinishLine?) ==>
      log'[j].id in {c, RootId}
    ensures forall x :: Started(log', x) <==> Started(t.log, x) || x == c || (x == RootId && p == RootId)
    ensures forall x :: Finished(log', x) <==> Finished(t.log, x)
  {
    UnknownSilent(t, c);
    var rootLines := if p == RootId then [StartLineOf(t.nodes[RootId], RootId)] else [];
    var mid := t.log + rootLines;
    assert RootId !in t.finished;
    if p == RootId {
      AppendStart(t.log, rootLines[0]);
    } else {
      assert mid == t.log;
    }
    assert Started(mid, p);
    AppendStart(mid, line);
  }

  /** Creating and starting a node keeps the invariant; a new leaf stays open
      until its spec is recorded. */
  lemma CreateStartedKeeps(t: Tree, p: nat, name: string, isSuite: bool, nodeType: string,
                           hint: Option<string>, key: Option<string>)
    requires TreeInv(t, {}) && IsSuite(t, p) && (key.Some? ==> isSuite)
    ensures CreateStarted(t, p, name, isSuite, nodeType, hint, key).Success?
    ensures var (t', c) := CreateStarted(t, p, name, isSuite, nodeType, hint, key).value;
      TreeInv(t', if isSuite then {} else {c}) && Quiet(t.log, t'.log)
  {
    var r := CreateStarted(t, p, name, isSuite, nodeType, hint, key);
    assert p !in t.finished;
    var (t', c) := r.value;
    assert c !in t.nodes && c != RootId;
    StartChildLog(t, p, c, StartLineOf(t'.nodes[c], c), t'.log);
    StartChildFrame(t, t', p, c, isSuite);
  }

  lemma StartChildFrame(t: Tree, t': Tree, p: nat, c: nat, isSuite: bool)
    requires TreeInv(t, {}) && IsSuite(t, p) && c !in t.nodes
    requires Ready(t') && t'.nodes.Keys == t.nodes.Keys + {c} && IsSuite(t', p)
    requires t'.nodes[c].body.Suite? == isSuite
    requires forall x :: x in t.nodes && x != p ==> t'.nodes[x] == t.nodes[x]
    requires t'.finished == t.finished && WellFormed(t'.log)
    requires forall x :: Started(t'.log, x) <==> Started(t.log, x) || x == c || (x == RootId && p == RootId)
    requires forall x :: Finished(t'.log, x) <==> Finished(t.log, x)
    requires forall j :: |t.log| <= j < |t'.log| && (t'.log[j].StartLine? || t'.log[j].FinishLine?) ==>
      t'.log[j].id in {c, RootId}
    requires t.log <= t'.log
    ensures TreeInv(t', if isSuite then {} else {c})
  {
    var open: set<nat> := if isSuite then {} else {c};
    UnknownSilent(t, c);
    assert LogNamesNodes(t') by {
      forall j | 0 <= j < |t'.log| && (t'.log[j].StartLine? || t'.log[j].FinishLine?)
        ensures t'.log[j].id in t'.nodes
      {
        if j < |t.log| { assert t'.log[j] == t.log[j]; }
      }
    }
    assert NodesStarted(t') by {
      if p != RootId {
        assert t'.nodes[RootId] == t.nodes[RootId];
      }
    }
    assert FinishedAreLeaves(t', open) by {
      forall x | x in t'.nodes
        ensures x in t'.finished <==> !IsSuite(t', x) && x !in open
      {
        if x != c && x != p {
          assert t'.nodes[x] == t.nodes[x];
        }
      }
    }
  }

  /** Recording the open leaf closes it. */
  lemma RecordLeafKeeps(t: Tree, x: nat, status: int, duration: Option<int>, failureMsg: string)
    requires TreeInv(t, {x}) && x in t.nodes && t.nodes[x].body.Leaf? && 0 <= status <= 3
    ensures TreeInv(RecordLeaf(t, x, status, duration, failureMsg), {})
    ensures Quiet(t.log, RecordLeaf(t, x, status, duration, failureMsg).log)
  {
    var t' := RecordLeaf(t, x, status, duration, failureMsg);
    assert x != RootId;
    assert !Finished(t.log, x) && Started(t.log, x);
    var line := t'.log[|t.log|];
    assert t'.log == t.log + [line];
    AppendFinish(t.log, line);
    assert forall q :: IsSuite(t', q) <==> IsSuite(t, q);
    assert LogNamesNodes(t') by {
      forall j | 0 <= j < |t'.log| && (t'.log[j].StartLine? || t'.log[j].FinishLine?)
        ensures t'.log[j].id in t'.nodes
      {
        if j < |t.log| { assert t'.log[j] == t.log[j]; }
      }
    }
  }

  // ---------------------------------------------------------------------
  // Reporter steps

  lemma GetOrCreateBrowserNodeKeeps(t: Tree, browser: Browser)
    requires TreeInv(t, {})
    ensures GetOrCreateBrowserNode(t, browser).Success?
    ensures TreeInv(GetOrCreateBrowserNode(t, browser).value.0, {})
    ensures Quiet(t.log, GetOrCreateBrowserNode(t, browser).value.0.log)
  {
    if browser.id !in t.nodes[RootId].body.lookup {
      CreateStartedKeeps(t, RootId, browser.name, true, "browser", None, Some(browser.id));
    }
  }

  lemma ErrorLeafKeeps(t: Tree, b: nat, error: string)
    requires TreeInv(t, {}) && IsSuite(t, b)
    ensures ErrorLeaf(t, b, error).Success?
    ensures TreeInv(ErrorLeaf(t, b, error).value.0, {}) && Quiet(t.log, ErrorLeaf(t, b, error).value.0.log)
  {
    CreateStartedKeeps(t, b, "Error", false, "browserError", None, None);
    var (t1, e) := CreateStarted(t, b, "Error", false, "browserError", None, None).value;
    RecordLeafKeeps(t1, e, 3, None, error);
    QuietTrans(t.log, t1.log, RecordLeaf(t1, e, 3, None, error).log);
  }

  /** A browser error during a run never throws. */
  lemma AddBrowserErrorNodeKeeps(t: Tree, browser: Browser, error: string)
    requires TreeInv(t, {})
    ensures AddBrowserErrorNode(t, browser, error).Success?
    ensures TreeInv(AddBrowserErrorNode(t, browser, error).value, {})
    ensures Quiet(t.log, AddBrowserErrorNode(t, browser, error).value.log)
  {
    GetOrCreateBrowserNodeKeeps(t, browser);
    var (t1, b) := GetOrCreateBrowserNode(t, browser).value;
    ErrorLeafKeeps(t1, b, error);
    QuietTrans(t.log, t1.log, ErrorLeaf(t1, b, error).value.0.log);
  }

  /** The suite-chain walk keeps the invariant and, during a run, never
      throws. */
  ghost predicate WalkKept(t: Tree, node: nat, names: seq<Option<string>>, i: nat, len: nat, join: JoinList)
    requires Ready(t) && IsSuite(t, node)
  {
    var w := WalkSuites(t, node, names, i, len, join);
    w.Walked? && TreeInv(w.tree, {}) && Quiet(t.log, w.tree.log)
  }

  lemma {:induction false} WalkKeeps(t: Tree, node: nat, names: seq<Option<string>>, i: nat, len: nat,
                                     join: JoinList)
    requires TreeInv(t, {}) && IsSuite(t, node)
    ensures WalkKept(t, node, names, i, len, join)
    decreases len - i, 1
  {
    if i >= len {
    } else if i >= |names| || names[i].None? {
      WalkKeepsNull(t, node, names, i, len, join);
    } else if names[i].value in t.nodes[node].body.lookup {
      WalkKeepsFound(t, node, names, i, len, join);
    } else {
      WalkKeepsCreate(t, node, names, i, len, join);
    }
  }

  lemma {:induction false} WalkKeepsFound(t: Tree, node: nat, names: seq<Option<string>>, i: nat, len: nat,
                                          join: JoinList)
    requires TreeInv(t, {}) && IsSuite(t, node) && i < len && i < |names| && names[i].Some?
    requires names[i].value in t.nodes[node].body.lookup
    ensures WalkKept(t, node, names, i, len, join)
    decreases len - i, 0
  {
    var next := t.nodes[node].body.lookup[names[i].value];
    WalkFoundUnfold(t, node, names, i, len, join);
    WalkKeeps(t, next, names, i + 1, len, join);
  }

  lemma {:induction false} WalkKeepsNull(t: Tree, node: nat, names: seq<Option<string>>, i: nat, len: nat,
                                         join: JoinList)
    requires TreeInv(t, {}) && IsSuite(t, node) && i < len && (i >= |names| || names[i].None?)
    ensures WalkKept(t, node, names, i, len, join)
    decreases len - i, 0
  {
    var t' := t.(log := t.log + [NullSuiteName]);
    AppendOtherKeeps(t, NullSuiteName, {});
    WalkKeeps(t', node, Splice(names, i), i + 1, len, join);
    QuietTrans(t.log, t'.log, WalkSuites(t', node, Splice(names, i), i + 1, len, join).tree.log);
  }

  lemma {:induction false} WalkKeepsCreate(t: Tree, node: nat, names: seq<Option<string>>, i: nat, len: nat,
                                           join: JoinList)
    requires TreeInv(t, {}) && IsSuite(t, node) && i < len && i < |names| && names[i].Some?
    requires names[i].value !in t.nodes[node].body.lookup
    ensures WalkKept(t, node, names, i, len, join)
    decreases len - i, 0
  {
    var name := names[i].value;
    var hint := join(names, 0, i + 1, ".");
    CreateStartedKeeps(t, node, name, true, "suite", Some(hint), Some(name));
    var r := CreateStarted(t, node, name, true, "suite", Some(hint), Some(name));
    var t' := r.value.0;
    var c := r.value.1;
    WalkCreateUnfold(t, node, names, i, len, join, t', c);
    WalkKeeps(t', c, names, i + 1, len, join);
    QuietTrans(t.log, t'.log, WalkSuites(t', c, names, i + 1, len, join).tree.log);
  }

  /** Recording a spec keeps the invariant; it throws only for a spec named
      like a suite registered in the same suite. */
  lemma RecordSpecKeeps(t: Tree, node: nat, names: seq<Option<string>>, result: SpecResult,
                        join: JoinList, format: FormatError)
    requires TreeInv(t, {}) && IsSuite(t, node)
    ensures var r := RecordSpec(t, node, names, result, join, format);
      && (r.Failure? ==> r.error == SpecAlreadyCreated)
      && (r.Success? ==> TreeInv(r.value.0, {}) && Quiet(t.log, r.value.0.log))
  {
    if result.description !in t.nodes[node].body.lookup {
      var spec := names + [Some(result.description)];
      var hint := join(spec, 0, |spec|, ".");
      CreateStartedKeeps(t, node, result.description, false, "test", Some(hint), None);
      var (t1, s) := CreateStarted(t, node, result.description, false, "test", Some(hint), None).value;
      var message := FailureMessage(result.log, format);
      RecordLeafKeeps(t1, s, SpecStatus(result), result.time, message);
      QuietTrans(t.log, t1.log, RecordLeaf(t1, s, SpecStatus(result), result.time, message).log);
    }
  }

  // ---------------------------------------------------------------------
  // Events

  lemma QuietKeepsCount(run: Run, t': Tree)
    requires CountInv(run) && Quiet(run.tree.log, t'.log)
    ensures CountInv(run.(tree := t'))
  {
    QuietCount(run.tree.log, t'.log);
  }

  /** Counting a browser writes the count line at most once per run: exactly
      when the last expected browser is counted. */
  lemma CountBrowserKeeps(run: Run, b: nat, browser: Browser)
    requires RunInv(run)
    ensures RunInv(CountBrowser(run, b, browser))
  {
    var run' := CountBrowser(run, b, browser);
    if b !in run.counted {
      if run.uncheckedBrowserCount == 1 {
        var line := TestCount(run.totalTestCount + browser.total);
        AppendOtherKeeps(run.tree, line, {});
        assert run'.tree == run.tree.(log := run.tree.log + [line]);
      }
      CountStep(run, run', b);
    }
  }

  lemma CountStep(run: Run, run': Run, b: nat)
    requires CountInv(run) && b !in run.counted
    requires run'.counted == run.counted + {b}
    requires run'.uncheckedBrowserCount == run.uncheckedBrowserCount - 1
    requires run'.tree.log == run.tree.log + (if run.uncheckedBrowserCount == 1
                                               then [TestCount(run'.totalTestCount)] else [])
    ensures CountInv(run')
  {
    var log' := run'.tree.log;
    if run.uncheckedBrowserCount == 1 {
      assert log'[..|log'| - 1] == run.tree.log;
    } else {
      assert log' == run.tree.log;
    }
  }

  lemma AfterCountKeeps(run: Run, b: nat, result: SpecResult, join: JoinList, format: FormatError)
    requires RunInv(run) && IsSuite(run.tree, b)
    ensures var (run', thrown) := AfterCount(run, b, result, join, format);
      RunInv(run') && (thrown.Some? ==> thrown == Some(SpecAlreadyCreated))
  {
    WalkKeeps(run.tree, b, result.suite, 0, |result.suite|, join);
    var w := GetOrCreateLowerSuiteNode(run.tree, b, result.suite, join);
    QuietKeepsCount(run, w.tree);
    RecordSpecKeeps(w.tree, w.node, w.names, result, join, format);
    var r := RecordSpec(w.tree, w.node, w.names, result, join, format);
    if r.Success? {
      QuietTrans(run.tree.log, w.tree.log, r.value.0.log);
      QuietKeepsCount(run, r.value.0);
    }
  }

  /** A spec result during a run keeps the invariant; the only exception it
      can raise is the duplicate-name one. */
  lemma OnSpecCompleteKeeps(r: Reporter, browser: Browser, result: SpecResult, join: JoinList,
                            format: FormatError)
    requires Inv(r)
    ensures Inv(OnSpecComplete(r, browser, result, join, format).reporter)
    ensures var thrown := OnSpecComplete(r, browser, result, join, format).thrown;
      thrown.Some? ==> (r.run.None? && thrown == Some(NoTree)) || thrown == Some(SpecAlreadyCreated)
  {
    if r.run.Some? {
      var run := r.run.value;
      GetOrCreateBrowserNodeKeeps(run.tree, browser);
      var (t1, b) := GetOrCreateBrowserNode(run.tree, browser).value;
      QuietKeepsCount(run, t1);
      CountBrowserKeeps(run.(tree := t1), b, browser);
      AfterCountKeeps(CountBrowser(run.(tree := t1), b, browser), b, result, join, format);
    }
  }

  /** A browser error during a run keeps the invariant and throws nothing. */
  lemma OnBrowserErrorKeeps(r: Reporter, browser: Browser, error: string)
    requires Inv(r)
    ensures Inv(OnBrowserError(r, browser, error).reporter)
    ensures OnBrowserError(r, browser, error).thrown.Some? <==> r.run.None?
  {
    if r.run.Some? {
      var run := r.run.value;
      AddBrowserErrorNodeKeeps(run.tree, browser, error);
      QuietKeepsCount(run, AddBrowserErrorNode(run.tree, browser, error).value);
    }
  }

  /** A browser log line keeps the invariant. */
  lemma OnBrowserLogKeeps(r: Reporter, log: string)
    requires Inv(r)
    ensures Inv(OnBrowserLog(r, log))
  {
    if r.run.Some? {
      var run := r.run.value;
      var t' := run.tree.(log := run.tree.log + [BrowserLog(log)]);
      AppendOtherKeeps(run.tree, BrowserLog(log), {});
      QuietKeepsCount(run, t');
    }
  }

  /** A run starts in the invariant, whatever came before. */
  lemma OnRunStartEstablishes(r: Reporter, browsers: seq<Browser>, rootName: string, configFilePath: string)
    ensures Inv(OnRunStart(r, browsers, rootName, configFilePath))
  {
    var t := NewTree(rootName, configFilePath);
    assert t.nodes[RootId].body.lookup == map[];
    assert forall x :: x in t.nodes ==> x == RootId;
  }
}
