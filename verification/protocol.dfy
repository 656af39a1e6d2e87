/** The shape a run's output must have for the IDE to rebuild the test
    tree from it: every node finishes after it starts, at most once, never
    starts again after finishing, and starts after its parent. */
module Protocol {
  import opened Messages
  import opened TestTree

  predicate StartsNode(l: Line, x: nat) {
    l.StartLine? && l.id == x
  }

  predicate FinishesNode(l: Line, x: nat) {
    l.FinishLine? && l.id == x
  }

  ghost predicate Started(log: seq<Line>, x: nat) {
    exists i :: 0 <= i < |log| && StartsNode(log[i], x)
  }

  ghost predicate Finished(log: seq<Line>, x: nat) {
    exists i :: 0 <= i < |log| && FinishesNode(log[i], x)
  }

  /** Every finish line follows a start line of the same node. */
  ghost predicate FinishAfterStart(log: seq<Line>) {
    forall j :: 0 <= j < |log| && log[j].FinishLine? ==> Started(log[..j], log[j].id)
  }

  /** Every start line naming a parent follows a start line of that parent. */
  ghost predicate ParentStartsFirst(log: seq<Line>) {
    forall j :: 0 <= j < |log| && log[j].StartLine? && log[j].parentId != NoParent ==>
      Started(log[..j], log[j].parentId)
  }

  ghost predicate FinishOnce(log: seq<Line>) {
    forall i, j :: 0 <= i < j < |log| && log[i].FinishLine? && log[j].FinishLine? ==> log[i].id != log[j].id
  }

  ghost predicate NoStartAfterFinish(log: seq<Line>) {
    forall i, j :: 0 <= i < j < |log| && log[i].FinishLine? && log[j].StartLine? ==> log[i].id != log[j].id
  }

  /** Only the root's start line may repeat: every child of the root writes
      it again. */
  ghost predicate StartOnceBelowRoot(log: seq<Line>) {
    forall i, j :: 0 <= i < j < |log| && log[i].StartLine? && log[j].StartLine? && log[i].id == log[j].id ==>
      log[i].id == RootId
  }

  ghost predicate WellFormed(log: seq<Line>) {
    && FinishAfterStart(log) && ParentStartsFirst(log) && FinishOnce(log)
    && NoStartAfterFinish(log) && StartOnceBelowRoot(log)
  }

  /** A complete run: well formed, and every started node finished. */
  ghost predicate Balanced(log: seq<Line>) {
    WellFormed(log) && forall x :: Started(log, x) ==> Finished(log, x)
  }

  lemma StartedAppend(log: seq<Line>, l: Line, x: nat)
    ensures Started(log + [l], x) <==> Started(log, x) || StartsNode(l, x)
    ensures Finished(log + [l], x) <==> Finished(log, x) || FinishesNode(l, x)
  {
    var log' := log + [l];
    if Started(log, x) {
      var i :| 0 <= i < |log| && StartsNode(log[i], x);
      assert log'[i] == log[i];
    }
    if Finished(log, x) {
      var i :| 0 <= i < |log| && FinishesNode(log[i], x);
      assert log'[i] == log[i];
    }
    if StartsNode(l, x) { assert log'[|log|] == l; }
    if FinishesNode(l, x) { assert log'[|log|] == l; }
  }

  /** A line that is neither a start nor a finish keeps the log well formed
      and changes nobody's state. */
  lemma {:induction false} AppendOther(log: seq<Line>, l: Line)
    requires WellFormed(log) && !l.StartLine? && !l.FinishLine?
    ensures WellFormed(log + [l])
    ensures forall x :: Started(log + [l], x) == Started(log, x) && Finished(log + [l], x) == Finished(log, x)
  {
    var log' := log + [l];
    forall x ensures Started(log', x) == Started(log, x) && Finished(log', x) == Finished(log, x) {
      StartedAppend(log, l, x);
    }
    assert log'[..|log|] == log;
    forall j | 0 <= j < |log'| ensures log'[..j] == log[..j] || j == |log| {
      if j < |log| { assert log'[..j] == log[..j]; }
    }
  }

  /** A start line may be appended when its node has not finished, has not
      started unless it is the root, and its parent has started. */
  lemma {:induction false} AppendStart(log: seq<Line>, l: Line)
    requires WellFormed(log) && l.StartLine?
    requires !Finished(log, l.id)
    requires l.id != RootId ==> !Started(log, l.id)
    requires l.parentId != NoParent ==> Started(log, l.parentId)
    ensures WellFormed(log + [l])
    ensures forall x :: Started(log + [l], x) == (Started(log, x) || x == l.id)
    ensures forall x :: Finished(log + [l], x) == Finished(log, x)
  {
    var log' := log + [l];
    forall x ensures Started(log', x) == (Started(log, x) || x == l.id) && Finished(log', x) == Finished(log, x) {
      StartedAppend(log, l, x);
    }
    assert log'[..|log|] == log;
    forall j | 0 <= j < |log| ensures log'[..j] == log[..j] {
    }
    forall i | 0 <= i < |log| && log[i].FinishLine? ensures log[i].id != l.id {
      assert FinishesNode(log[i], log[i].id);
    }
    forall i | 0 <= i < |log| && log[i].StartLine? && log[i].id == l.id ensures l.id == RootId {
      assert StartsNode(log[i], l.id);
    }
  }

  /** A finish line may be appended when its node has started and not yet
      finished. */
  lemma {:induction false} AppendFinish(log: seq<Line>, l: Line)
    requires WellFormed(log) && l.FinishLine?
    requires Started(log, l.id) && !Finished(log, l.id)
    ensures WellFormed(log + [l])
    ensures forall x :: Started(log + [l], x) == Started(log, x)
    ensures forall x :: Finished(log + [l], x) == (Finished(log, x) || x == l.id)
  {
    var log' := log + [l];
    forall x ensures Started(log', x) == Started(log, x) && Finished(log', x) == (Finished(log, x) || x == l.id) {
      StartedAppend(log, l, x);
    }
    assert log'[..|log|] == log;
    forall j | 0 <= j < |log| ensures log'[..j] == log[..j] {
    }
    forall i | 0 <= i < |log| && log[i].FinishLine? ensures log[i].id != l.id {
      assert FinishesNode(log[i], log[i].id);
    }
  }
}
