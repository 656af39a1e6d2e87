/** The end of a run: under the reporter's invariant, the finish cascade of
    `onRunComplete` leaves a balanced output. */
module RunCompletion {
  import opened Base
  import opened Messages
  import opened TestTree
  import opened Cascade
  import opened Protocol
  import opened Reporter
  import opened RunInvariant

  /** Finishing one suite that has started (or is the childless root) and
      has not finished keeps the log well formed. */
  lemma SuiteFinishStep(t: Tree, log: seq<Line>, x: nat)
    requires Valid(t) && WellFormed(log) && x in t.nodes
    requires !Finished(log, x) && (Started(log, x) || (x == RootId && Kids(t.nodes[RootId]) == []))
    ensures WellFormed(log + SuiteFinishLines(t.nodes, x))
    ensures forall y :: Finished(log + SuiteFinishLines(t.nodes, x), y) <==> Finished(log, y) || y == x
    ensures forall y :: Started(log + SuiteFinishLines(t.nodes, x), y) ==> Started(log, y) || y == x
    ensures forall y :: Started(log, y) ==> Started(log + SuiteFinishLines(t.nodes, x), y)
  {
    var pre := if x == RootId && t.nodes[x].body.Suite? && t.nodes[x].body.children == []
               then [StartLineOf(t.nodes[x], x)] else [];
    var mid := log + pre;
    if pre != [] {
      AppendStart(log, pre[0]);
    } else {
      assert mid == log;
    }
    var fin := FinishLine("testSuiteFinished", x, NoExtras);
    AppendFinish(mid, fin);
    assert mid + [fin] == log + SuiteFinishLines(t.nodes, x);
  }

  lemma CascadeLinesCons(ns: map<nat, Node>, log: seq<Line>, ids: seq<nat>)
    requires ids != [] && forall i :: 0 <= i < |ids| ==> ids[i] in ns
    ensures log + CascadeLines(ns, ids) == log + SuiteFinishLines(ns, ids[0]) + CascadeLines(ns, ids[1..])
  {
  }

  /** The lines of finishing `ids` keep a log well formed when each id is a
      distinct node that has not finished and has started (or is the
      childless root, whose start line the finish writes first). */
  lemma {:induction false} CascadeWellFormed(t: Tree, log: seq<Line>, ids: seq<nat>)
    requires Valid(t) && WellFormed(log)
    requires forall i :: 0 <= i < |ids| ==> ids[i] in t.nodes
    requires forall i, j :: 0 <= i < j < |ids| ==> ids[i] != ids[j]
    requires forall i :: 0 <= i < |ids| ==>
      !Finished(log, ids[i]) && (Started(log, ids[i]) || (ids[i] == RootId && Kids(t.nodes[RootId]) == []))
    ensures WellFormed(log + CascadeLines(t.nodes, ids))
    ensures forall x :: Finished(log + CascadeLines(t.nodes, ids), x) <==> Finished(log, x) || x in ids
    ensures forall x :: Started(log + CascadeLines(t.nodes, ids), x) ==> Started(log, x) || x in ids
    decreases |ids|
  {
    if ids == [] {
      assert log + CascadeLines(t.nodes, ids) == log;
    } else {
      var x := ids[0];
      SuiteFinishStep(t, log, x);
      var log1 := log + SuiteFinishLines(t.nodes, x);
      var rest := ids[1..];
      forall i | 0 <= i < |rest|
        ensures !Finished(log1, rest[i])
        ensures Started(log1, rest[i]) || (rest[i] == RootId && Kids(t.nodes[RootId]) == [])
      {
        assert rest[i] == ids[i + 1] && ids[0] != ids[i + 1];
      }
      CascadeWellFormed(t, log1, rest);
      var log' := log + CascadeLines(t.nodes, ids);
      CascadeLinesCons(t.nodes, log, ids);
      forall y
        ensures Finished(log', y) <==> Finished(log, y) || y in ids
        ensures Started(log', y) ==> Started(log, y) || y in ids
      {
        assert y in ids <==> y == x || y in rest;
      }
    }
  }

  /** Every node in the log is a node of the tree. */
  lemma LoggedAreNodes(t: Tree, x: nat)
    requires LogNamesNodes(t) && Started(t.log, x)
    ensures x in t.nodes
  {
    if x !in t.nodes {
      UnknownSilent(t, x);
    }
  }

  /** `onRunComplete` closes the run: the lines the run wrote, from the first
      to the last finish of the cascade, are balanced. */
  lemma OnRunCompleteBalanced(r: Reporter)
    requires Inv(r) && r.run.Some?
    ensures OnRunComplete(r).thrown.None?
    ensures Balanced(OnRunComplete(r).reporter.past[|r.past|..])
  {
    var t := r.run.value.tree;
    assert LeavesFinished(t);
    assert FinishedClosed(t);
    var t' := FinishIfStarted(t, RootId);
    var ids := Pending(t, RootId);
    FinishIfStartedIsPostOrder(t, RootId);
    PendingUnfinished(t, RootId);
    PendingDistinct(t, RootId);
    forall i | 0 <= i < |ids|
      ensures !Finished(t.log, ids[i])
      ensures Started(t.log, ids[i]) || (ids[i] == RootId && Kids(t.nodes[RootId]) == [])
    {
      assert ids[i] in t.nodes && ids[i] !in t.finished;
    }
    CascadeWellFormed(t, t.log, ids);
    assert OnRunComplete(r).reporter.past[|r.past|..] == t'.log;
    forall x | Started(t'.log, x)
      ensures Finished(t'.log, x)
    {
      if x !in ids {
        LoggedAreNodes(t, x);
        UnderRoot(t.nodes, t.nextId, x);
        FinishIfStartedFinishesSubtree(t, RootId, x);
      }
    }
  }
}
