/** The finish cascade of lib/tree.js (`finishIfStarted`) against an
    independent description of it: the post-order list of the unfinished
    nodes below a node, skipping every finished subtree. */
module Cascade {
  import opened Base
  import opened Messages
  import opened TestTree

  /** `y` is `c` or a descendant of `c`: the parent chain of `y` reaches `c`. */
  ghost predicate Under(ns: map<nat, Node>, nextId: nat, y: nat, c: nat)
    requires ValidStore(ns, nextId)
    decreases y
  {
    || y == c
    || (y in ns && y != RootId && (assert ParentOk(ns, y); Under(ns, nextId, ns[y].parent, c)))
  }

  /** The unfinished nodes below `x`, children before parents and siblings in
      creation order; a finished node hides its whole subtree. */
  function Pending(t: Tree, x: nat): seq<nat>
    requires Valid(t) && x in t.nodes
    decreases t.nextId - x, 1
  {
    if x in t.finished then [] else PendingKids(t, x, 0) + [x]
  }

  function PendingKids(t: Tree, x: nat, i: nat): seq<nat>
    requires Valid(t) && x in t.nodes && i <= |Kids(t.nodes[x])|
    decreases t.nextId - x, 0, |Kids(t.nodes[x])| - i
  {
    var kids := Kids(t.nodes[x]);
    if i == |kids| then []
    else
      assert KidsOk(t.nodes, x) && ParentOk(t.nodes, kids[i]);
      Pending(t, kids[i]) + PendingKids(t, x, i + 1)
  }

  /** The lines `writeFinishMessage` writes for suite `x`. */
  function SuiteFinishLines(ns: map<nat, Node>, x: nat): seq<Line>
    requires x in ns
  {
    (if x == RootId && ns[x].body.Suite? && ns[x].body.children == []
     then [StartLineOf(ns[x], x)] else [])
    + [FinishLine("testSuiteFinished", x, NoExtras)]
  }

  /** The lines of finishing the suites `ids` one after another. */
  function CascadeLines(ns: map<nat, Node>, ids: seq<nat>): seq<Line>
    requires forall i :: 0 <= i < |ids| ==> ids[i] in ns
  {
    if ids == [] then [] else SuiteFinishLines(ns, ids[0]) + CascadeLines(ns, ids[1..])
  }

  function Elems(s: seq<nat>): set<nat> {
    set i | 0 <= i < |s| :: s[i]
  }

  lemma ElemsAppend(a: seq<nat>, b: seq<nat>)
    ensures Elems(a + b) == Elems(a) + Elems(b)
  {
    forall y | y in Elems(a + b)
      ensures y in Elems(a) + Elems(b)
    {
      var i :| 0 <= i < |a + b| && (a + b)[i] == y;
      if i >= |a| {
        assert b[i - |a|] == y;
      }
    }
    forall y | y in Elems(b)
      ensures y in Elems(a + b)
    {
      var i :| 0 <= i < |b| && b[i] == y;
      assert (a + b)[|a| + i] == y;
    }
    forall y | y in Elems(a)
      ensures y in Elems(a + b)
    {
      var i :| 0 <= i < |a| && a[i] == y;
      assert (a + b)[i] == y;
    }
  }

  // ---------------------------------------------------------------------
  // Facts about the parent chain

  lemma {:induction false} UnderLe(ns: map<nat, Node>, nextId: nat, y: nat, c: nat)
    requires ValidStore(ns, nextId) && y in ns && Under(ns, nextId, y, c)
    ensures c <= y
    decreases y
  {
    if y != c {
      assert ParentOk(ns, y);
      UnderLe(ns, nextId, ns[y].parent, c);
    }
  }

  /** Below a child is below its parent. */
  lemma {:induction false} UnderParent(ns: map<nat, Node>, nextId: nat, y: nat, k: nat)
    requires ValidStore(ns, nextId) && y in ns && k in ns && k != RootId
    requires Under(ns, nextId, y, k)
    ensures Under(ns, nextId, y, ns[k].parent)
    decreases y
  {
    assert ParentOk(ns, k);
    if y == k {
      assert ParentOk(ns, y);
      assert Under(ns, nextId, ns[k].parent, ns[k].parent);
    } else {
      assert y != RootId;
      assert ParentOk(ns, y);
      UnderParent(ns, nextId, ns[y].parent, k);
    }
  }

  /** The subtrees of two different siblings do not meet. */
  lemma {:induction false} SiblingsDisjoint(ns: map<nat, Node>, nextId: nat, y: nat, a: nat, b: nat)
    requires ValidStore(ns, nextId) && y in ns && a in ns && b in ns
    requires a != b && a != RootId && b != RootId && ns[a].parent == ns[b].parent
    ensures !(Under(ns, nextId, y, a) && Under(ns, nextId, y, b))
    decreases y
  {
    if Under(ns, nextId, y, a) && Under(ns, nextId, y, b) {
      assert ParentOk(ns, a) && ParentOk(ns, b);
      if y == a {
        assert ParentOk(ns, y);
        UnderLe(ns, nextId, ns[y].parent, b);
      } else if y == b {
        assert ParentOk(ns, y);
        UnderLe(ns, nextId, ns[y].parent, a);
      } else {
        assert y != RootId;
        assert ParentOk(ns, y);
        SiblingsDisjoint(ns, nextId, ns[y].parent, a, b);
      }
    }
  }

  // ---------------------------------------------------------------------
  // Facts about Pending

  lemma {:induction false} PendingUnder(t: Tree, x: nat)
    requires Valid(t) && x in t.nodes
    ensures forall i :: 0 <= i < |Pending(t, x)| ==>
      Pending(t, x)[i] in t.nodes && Under(t.nodes, t.nextId, Pending(t, x)[i], x)
    decreases t.nextId - x, 1
  {
    if x !in t.finished {
      PendingKidsUnder(t, x, 0);
    }
  }

  lemma {:induction false} PendingKidsUnder(t: Tree, x: nat, i: nat)
    requires Valid(t) && x in t.nodes && i <= |Kids(t.nodes[x])|
    ensures forall j :: 0 <= j < |PendingKids(t, x, i)| ==>
      PendingKids(t, x, i)[j] in t.nodes && Under(t.nodes, t.nextId, PendingKids(t, x, i)[j], x)
    decreases t.nextId - x, 0, |Kids(t.nodes[x])| - i
  {
    var kids := Kids(t.nodes[x]);
    if i < |kids| {
      assert KidsOk(t.nodes, x) && ParentOk(t.nodes, kids[i]);
      var k := kids[i];
      PendingUnder(t, k);
      PendingKidsUnder(t, x, i + 1);
      var front, back := Pending(t, k), PendingKids(t, x, i + 1);
      assert PendingKids(t, x, i) == front + back;
      forall j | 0 <= j < |front|
        ensures Under(t.nodes, t.nextId, front[j], x)
      {
        UnderParent(t.nodes, t.nextId, front[j], k);
      }
    }
  }

  /** Pending lists unfinished nodes only. */
  lemma {:induction false} PendingUnfinished(t: Tree, x: nat)
    requires Valid(t) && x in t.nodes
    ensures forall i :: 0 <= i < |Pending(t, x)| ==> Pending(t, x)[i] !in t.finished
    decreases t.nextId - x, 1
  {
    if x !in t.finished {
      PendingKidsUnfinished(t, x, 0);
    }
  }

  lemma {:induction false} PendingKidsUnfinished(t: Tree, x: nat, i: nat)
    requires Valid(t) && x in t.nodes && i <= |Kids(t.nodes[x])|
    ensures forall j :: 0 <= j < |PendingKids(t, x, i)| ==> PendingKids(t, x, i)[j] !in t.finished
    decreases t.nextId - x, 0, |Kids(t.nodes[x])| - i
  {
    var kids := Kids(t.nodes[x]);
    if i < |kids| {
      assert KidsOk(t.nodes, x) && ParentOk(t.nodes, kids[i]);
      PendingUnfinished(t, kids[i]);
      PendingKidsUnfinished(t, x, i + 1);
    }
  }

  /** Two trees that agree on which nodes below `x` are finished agree on
      what is pending below `x`. */
  lemma {:induction false} PendingFrame(t: Tree, t': Tree, x: nat)
    requires Valid(t) && x in t.nodes && t'.nodes == t.nodes && t'.nextId == t.nextId
    requires forall y :: y in t.nodes && Under(t.nodes, t.nextId, y, x) ==>
      (y in t.finished <==> y in t'.finished)
    ensures Pending(t', x) == Pending(t, x)
    decreases t.nextId - x, 1
  {
    assert Under(t.nodes, t.nextId, x, x);
    if x !in t.finished {
      PendingKidsFrame(t, t', x, 0);
    }
  }

  lemma {:induction false} PendingKidsFrame(t: Tree, t': Tree, x: nat, i: nat)
    requires Valid(t) && x in t.nodes && t'.nodes == t.nodes && t'.nextId == t.nextId
    requires i <= |Kids(t.nodes[x])|
    requires forall y :: y in t.nodes && Under(t.nodes, t.nextId, y, x) ==>
      (y in t.finished <==> y in t'.finished)
    ensures PendingKids(t', x, i) == PendingKids(t, x, i)
    decreases t.nextId - x, 0, |Kids(t.nodes[x])| - i
  {
    var kids := Kids(t.nodes[x]);
    if i < |kids| {
      assert KidsOk(t.nodes, x) && ParentOk(t.nodes, kids[i]);
      var k := kids[i];
      forall y | y in t.nodes && Under(t.nodes, t.nextId, y, k)
        ensures y in t.finished <==> y in t'.finished
      {
        UnderParent(t.nodes, t.nextId, y, k);
      }
      PendingFrame(t, t', k);
      PendingKidsFrame(t, t', x, i + 1);
    }
  }

  lemma {:induction false} CascadeLinesAppend(ns: map<nat, Node>, a: seq<nat>, b: seq<nat>)
    requires forall i :: 0 <= i < |a| ==> a[i] in ns
    requires forall i :: 0 <= i < |b| ==> b[i] in ns
    ensures CascadeLines(ns, a + b) == CascadeLines(ns, a) + CascadeLines(ns, b)
    decreases |a|
  {
    if a == [] {
      assert a + b == b;
    } else {
      assert (a + b)[0] == a[0];
      assert (a + b)[1..] == a[1..] + b;
      CascadeLinesAppend(ns, a[1..], b);
    }
  }

  // ---------------------------------------------------------------------
  // The cascade is the post-order

  /** `finishIfStarted` finishes exactly the pending nodes and writes their
      lines in post-order: every unfinished descendant before its ancestor,
      siblings in creation order. */
  lemma {:induction false} FinishIfStartedIsPostOrder(t: Tree, x: nat)
    requires Valid(t) && LeavesFinished(t) && x in t.nodes
    ensures forall i :: 0 <= i < |Pending(t, x)| ==> Pending(t, x)[i] in t.nodes
    ensures FinishIfStarted(t, x).finished == t.finished + Elems(Pending(t, x))
    ensures FinishIfStarted(t, x).log == t.log + CascadeLines(t.nodes, Pending(t, x))
    decreases t.nextId - x, 1
  {
    PendingUnder(t, x);
    if x !in t.finished {
      FinishChildrenIsPostOrder(t, x, 0);
      PendingKidsUnder(t, x, 0);
      FinishSelfLast(t, x, FinishChildren(t, x, 0), PendingKids(t, x, 0));
    }
  }

  /** The suite's own lines follow those of its children. */
  lemma FinishSelfLast(t: Tree, x: nat, t1: Tree, pk: seq<nat>)
    requires IsSuite(t, x) && forall j :: 0 <= j < |pk| ==> pk[j] in t.nodes
    requires t1.nodes == t.nodes
    requires t1.finished == t.finished + Elems(pk) && t1.log == t.log + CascadeLines(t.nodes, pk)
    ensures FinishSuite(t1, x).finished == t.finished + Elems(pk + [x])
    ensures FinishSuite(t1, x).log == t.log + CascadeLines(t.nodes, pk + [x])
  {
    CascadeLinesAppend(t.nodes, pk, [x]);
    ElemsAppend(pk, [x]);
    CascadeSingle(t.nodes, x);
    FinishSuiteLines(t1, x);
    LinesAssoc(t.log, CascadeLines(t.nodes, pk), SuiteFinishLines(t.nodes, x));
  }

  lemma CascadeSingle(ns: map<nat, Node>, x: nat)
    requires x in ns
    ensures CascadeLines(ns, [x]) == SuiteFinishLines(ns, x)
  {
    assert [x][1..] == [];
    assert SuiteFinishLines(ns, x) + [] == SuiteFinishLines(ns, x);
  }

  lemma FinishSuiteLines(t: Tree, x: nat)
    requires IsSuite(t, x)
    ensures FinishSuite(t, x).log == t.log + SuiteFinishLines(t.nodes, x)
  {
    var a := if ChildlessRoot(t, x) then [StartLineOf(t.nodes[x], x)] else [];
    var b := [FinishLine("testSuiteFinished", x, NoExtras)];
    assert SuiteFinishLines(t.nodes, x) == a + b;
    LinesAssoc(t.log, a, b);
  }

  lemma {:induction false} FinishChildrenIsPostOrder(t: Tree, x: nat, i: nat)
    requires Valid(t) && LeavesFinished(t) && IsSuite(t, x) && i <= |t.nodes[x].body.children|
    ensures forall j :: 0 <= j < |PendingKids(t, x, i)| ==> PendingKids(t, x, i)[j] in t.nodes
    ensures FinishChildren(t, x, i).finished == t.finished + Elems(PendingKids(t, x, i))
    ensures FinishChildren(t, x, i).log == t.log + CascadeLines(t.nodes, PendingKids(t, x, i))
    decreases t.nextId - x, 0, |t.nodes[x].body.children| - i
  {
    PendingKidsUnder(t, x, i);
    var kids := t.nodes[x].body.children;
    if i < |kids| {
      assert KidsOk(t.nodes, x) && ParentOk(t.nodes, kids[i]);
      var k := kids[i];
      var t1 := FinishIfStarted(t, k);
      assert FinishChildren(t, x, i) == FinishChildren(t1, x, i + 1);
      FinishIfStartedIsPostOrder(t, k);
      var front := Pending(t, k);
      PendingUnder(t, k);
      OutsideSubtreeUnchanged(t, t1, x, k, front);
      LaterSiblingsUnchanged(t, t1, x, i);
      FinishChildrenIsPostOrder(t1, x, i + 1);
      var back := PendingKids(t, x, i + 1);
      assert PendingKids(t, x, i) == front + back;
      PendingKidsUnder(t, x, i + 1);
      CombineSteps(t, t1, FinishChildren(t1, x, i + 1), front, back);
      ElemsAppend(front, back);
    }
  }

  /** Two finishing steps in a row. */
  lemma CombineSteps(t: Tree, t1: Tree, t2: Tree, front: seq<nat>, back: seq<nat>)
    requires forall j :: 0 <= j < |front| ==> front[j] in t.nodes
    requires forall j :: 0 <= j < |back| ==> back[j] in t.nodes
    requires t1.nodes == t.nodes
    requires t1.finished == t.finished + Elems(front) && t1.log == t.log + CascadeLines(t.nodes, front)
    requires t2.finished == t1.finished + Elems(back) && t2.log == t1.log + CascadeLines(t1.nodes, back)
    ensures t2.finished == t.finished + Elems(front + back)
    ensures t2.log == t.log + CascadeLines(t.nodes, front + back)
  {
    CascadeLinesAppend(t.nodes, front, back);
    ElemsAppend(front, back);
    LinesAssoc(t.log, CascadeLines(t.nodes, front), CascadeLines(t.nodes, back));
  }

  lemma LinesAssoc(a: seq<Line>, b: seq<Line>, c: seq<Line>)
    ensures (a + b) + c == a + (b + c)
  {
  }

  /** Finishing the subtree of `k` changes no flag outside it. */
  lemma OutsideSubtreeUnchanged(t: Tree, t1: Tree, x: nat, k: nat, front: seq<nat>)
    requires Valid(t) && k in t.nodes
    requires forall j :: 0 <= j < |front| ==> front[j] in t.nodes && Under(t.nodes, t.nextId, front[j], k)
    requires t1.finished == t.finished + Elems(front)
    ensures forall y :: y in t.nodes && Under(t.nodes, t.nextId, y, x) && !Under(t.nodes, t.nextId, y, k) ==>
      (y in t.finished <==> y in t1.finished)
  {
  }

  /** The part of the frame argument about later siblings. */
  lemma LaterSiblingsUnchanged(t: Tree, t1: Tree, x: nat, i: nat)
    requires Valid(t) && IsSuite(t, x) && i < |t.nodes[x].body.children|
    requires t1.nodes == t.nodes && t1.nextId == t.nextId
    requires forall y :: y in t.nodes && Under(t.nodes, t.nextId, y, x)
                         && !Under(t.nodes, t.nextId, y, t.nodes[x].body.children[i]) ==>
      (y in t.finished <==> y in t1.finished)
    ensures PendingKids(t1, x, i + 1) == PendingKids(t, x, i + 1)
  {
    var kids := t.nodes[x].body.children;
    assert KidsOk(t.nodes, x);
    var k := kids[i];
    LaterKidsFrame(t, t1, x, i, i + 1);
  }

  lemma {:induction false} LaterKidsFrame(t: Tree, t1: Tree, x: nat, i: nat, m: nat)
    requires Valid(t) && IsSuite(t, x) && i < m <= |t.nodes[x].body.children|
    requires t1.nodes == t.nodes && t1.nextId == t.nextId
    requires forall y :: y in t.nodes && Under(t.nodes, t.nextId, y, x)
                         && !Under(t.nodes, t.nextId, y, t.nodes[x].body.children[i]) ==>
      (y in t.finished <==> y in t1.finished)
    ensures PendingKids(t1, x, m) == PendingKids(t, x, m)
    decreases |t.nodes[x].body.children| - m
  {
    var kids := t.nodes[x].body.children;
    if m < |kids| {
      assert KidsOk(t.nodes, x);
      assert kids == Kids(t.nodes[x]);
      assert kids[m] in t.nodes && kids[i] in t.nodes;
      assert ParentOk(t.nodes, kids[m]) && ParentOk(t.nodes, kids[i]);
      var k := kids[m];
      forall y | y in t.nodes && Under(t.nodes, t.nextId, y, k)
        ensures y in t.finished <==> y in t1.finished
      {
        UnderParent(t.nodes, t.nextId, y, k);
        SiblingsDisjoint(t.nodes, t.nextId, y, k, kids[i]);
      }
      PendingFrame(t, t1, k);
      LaterKidsFrame(t, t1, x, i, m + 1);
    }
  }

  // ---------------------------------------------------------------------
  // Consequences

  /** A second `finishIfStarted` writes nothing and changes nothing. */
  lemma FinishIfStartedIdempotent(t: Tree, x: nat)
    requires Valid(t) && LeavesFinished(t) && x in t.nodes
    ensures FinishIfStarted(FinishIfStarted(t, x), x) == FinishIfStarted(t, x)
  {
  }

  /** Pending never lists a node twice. */
  lemma {:induction false} PendingDistinct(t: Tree, x: nat)
    requires Valid(t) && x in t.nodes
    ensures forall i, j :: 0 <= i < j < |Pending(t, x)| ==> Pending(t, x)[i] != Pending(t, x)[j]
    decreases t.nextId - x, 1
  {
    if x !in t.finished {
      PendingKidsDistinct(t, x, 0);
      PendingKidsUnder(t, x, 0);
      var pk := PendingKids(t, x, 0);
      forall j | 0 <= j < |pk|
        ensures pk[j] != x
      {
        PendingKidsBelow(t, x, 0, j);
      }
    }
  }

  /** Everything pending below the children of `x` has a larger id than `x`. */
  lemma PendingKidsBelow(t: Tree, x: nat, i: nat, j: nat)
    requires Valid(t) && x in t.nodes && i <= |Kids(t.nodes[x])|
    requires j < |PendingKids(t, x, i)|
    ensures PendingKids(t, x, i)[j] > x
  {
    PendingKidsUnder(t, x, i);
    var y := PendingKids(t, x, i)[j];
    var k := FirstKidAbove(t, x, i, j);
    var kids := Kids(t.nodes[x]);
    assert KidsOk(t.nodes, x) && ParentOk(t.nodes, k);
    UnderLe(t.nodes, t.nextId, y, k);
  }

  /** The child of `x` whose subtree holds the `j`-th pending entry. */
  lemma {:induction false} FirstKidAbove(t: Tree, x: nat, i: nat, j: nat) returns (k: nat)
    requires Valid(t) && x in t.nodes && i <= |Kids(t.nodes[x])|
    requires j < |PendingKids(t, x, i)|
    ensures k in Kids(t.nodes[x]) && k in t.nodes
    ensures Under(t.nodes, t.nextId, PendingKids(t, x, i)[j], k)
    decreases |Kids(t.nodes[x])| - i
  {
    var kids := Kids(t.nodes[x]);
    assert KidsOk(t.nodes, x) && ParentOk(t.nodes, kids[i]);
    var front := Pending(t, kids[i]);
    PendingUnder(t, kids[i]);
    if j < |front| {
      k := kids[i];
    } else {
      k := FirstKidAbove(t, x, i + 1, j - |front|);
    }
  }

  lemma {:induction false} PendingKidsDistinct(t: Tree, x: nat, i: nat)
    requires Valid(t) && x in t.nodes && i <= |Kids(t.nodes[x])|
    ensures forall a, b :: 0 <= a < b < |PendingKids(t, x, i)| ==>
      PendingKids(t, x, i)[a] != PendingKids(t, x, i)[b]
    decreases t.nextId - x, 0, |Kids(t.nodes[x])| - i
  {
    var kids := Kids(t.nodes[x]);
    if i < |kids| {
      assert KidsOk(t.nodes, x) && ParentOk(t.nodes, kids[i]);
      var k := kids[i];
      var front, back := Pending(t, k), PendingKids(t, x, i + 1);
      assert PendingKids(t, x, i) == front + back;
      PendingDistinct(t, k);
      PendingKidsDistinct(t, x, i + 1);
      PendingUnder(t, k);
      forall a, b | 0 <= a < |front| && 0 <= b < |back|
        ensures front[a] != back[b]
      {
        var k' := LaterKidAbove(t, x, i, b);
        assert ParentOk(t.nodes, k');
        SiblingsDisjoint(t.nodes, t.nextId, back[b], k, k');
      }
    }
  }

  /** The entries after child `i`'s own come from later children. */
  lemma LaterKidAbove(t: Tree, x: nat, i: nat, b: nat) returns (k': nat)
    requires Valid(t) && x in t.nodes && i < |Kids(t.nodes[x])|
    requires b < |PendingKids(t, x, i + 1)|
    ensures k' in t.nodes && k' != Kids(t.nodes[x])[i] && k' in Kids(t.nodes[x])
    ensures Under(t.nodes, t.nextId, PendingKids(t, x, i + 1)[b], k')
  {
    k' := LaterKid(t, x, i + 1, b);
    var kids := Kids(t.nodes[x]);
    assert KidsOk(t.nodes, x);
  }

  lemma {:induction false} LaterKid(t: Tree, x: nat, m: nat, b: nat) returns (k: nat)
    requires Valid(t) && x in t.nodes && m <= |Kids(t.nodes[x])|
    requires b < |PendingKids(t, x, m)|
    ensures exists j :: m <= j < |Kids(t.nodes[x])| && Kids(t.nodes[x])[j] == k
    ensures k in t.nodes
    ensures Under(t.nodes, t.nextId, PendingKids(t, x, m)[b], k)
    decreases |Kids(t.nodes[x])| - m
  {
    var kids := Kids(t.nodes[x]);
    assert KidsOk(t.nodes, x) && ParentOk(t.nodes, kids[m]);
    var front := Pending(t, kids[m]);
    PendingUnder(t, kids[m]);
    if b < |front| {
      k := kids[m];
    } else {
      k := LaterKid(t, x, m + 1, b - |front|);
    }
  }

  /** No finished node has an unfinished child. */
  ghost predicate FinishedClosed(t: Tree) {
    forall p, c :: p in t.finished && IsSuite(t, p) && c in t.nodes[p].body.children ==> c in t.finished
  }

  /** When finished nodes have only finished children, every unfinished node
      below `x` is pending. */
  lemma {:induction false} UnfinishedArePending(t: Tree, x: nat, y: nat)
    requires Valid(t) && FinishedClosed(t) && x in t.nodes && y in t.nodes
    requires Under(t.nodes, t.nextId, y, x) && y !in t.finished
    ensures y in Elems(Pending(t, x))
    decreases t.nextId - x
  {
    if y == x {
      assert Pending(t, x)[|Pending(t, x)| - 1] == x;
    } else {
      var k := KidOnPath(t, x, y);
      assert KidsOk(t.nodes, x);
      var i :| 0 <= i < |Kids(t.nodes[x])| && Kids(t.nodes[x])[i] == k;
      assert ParentOk(t.nodes, k);
      if x in t.finished {
        assert k in t.finished;
        FinishedBelowFinished(t, y, k);
        assert false;
      }
      UnfinishedArePending(t, k, y);
      PendingKidsContains(t, x, 0, i);
      ElemsAppend(PendingKids(t, x, 0), [x]);
    }
  }

  /** Below a finished node everything is finished. */
  lemma {:induction false} FinishedBelowFinished(t: Tree, y: nat, k: nat)
    requires Valid(t) && FinishedClosed(t) && y in t.nodes && k in t.finished
    requires Under(t.nodes, t.nextId, y, k)
    ensures y in t.finished
    decreases y
  {
    if y != k {
      assert y != RootId;
      assert ParentOk(t.nodes, y);
      FinishedBelowFinished(t, t.nodes[y].parent, k);
    }
  }

  /** The child of `x` on the parent chain of `y`. */
  lemma {:induction false} KidOnPath(t: Tree, x: nat, y: nat) returns (k: nat)
    requires Valid(t) && x in t.nodes && y in t.nodes
    requires Under(t.nodes, t.nextId, y, x) && y != x
    ensures k in t.nodes && k != RootId && t.nodes[k].parent == x && k in Kids(t.nodes[x])
    ensures Under(t.nodes, t.nextId, y, k)
    decreases y
  {
    assert y != RootId && ParentOk(t.nodes, y);
    var p := t.nodes[y].parent;
    if p == x {
      k := y;
    } else {
      k := KidOnPath(t, x, p);
    }
  }

  lemma {:induction false} PendingKidsContains(t: Tree, x: nat, m: nat, i: nat)
    requires Valid(t) && x in t.nodes && m <= i < |Kids(t.nodes[x])|
    ensures Kids(t.nodes[x])[i] in t.nodes
    ensures Elems(Pending(t, Kids(t.nodes[x])[i])) <= Elems(PendingKids(t, x, m))
    decreases i - m
  {
    var kids := Kids(t.nodes[x]);
    assert KidsOk(t.nodes, x);
    ElemsAppend(Pending(t, kids[m]), PendingKids(t, x, m + 1));
    if m < i {
      PendingKidsContains(t, x, m + 1, i);
    }
  }

  /** Under the reporter's conditions the cascade from `x` leaves nothing below
      `x` unfinished. */
  lemma FinishIfStartedFinishesSubtree(t: Tree, x: nat, y: nat)
    requires Valid(t) && LeavesFinished(t) && FinishedClosed(t) && x in t.nodes && y in t.nodes
    requires Under(t.nodes, t.nextId, y, x)
    ensures y in FinishIfStarted(t, x).finished
  {
    FinishIfStartedIsPostOrder(t, x);
    if y !in t.finished {
      UnfinishedArePending(t, x, y);
    }
  }

  /** Every node lies below the root. */
  lemma {:induction false} UnderRoot(ns: map<nat, Node>, nextId: nat, y: nat)
    requires ValidStore(ns, nextId) && y in ns
    ensures Under(ns, nextId, y, RootId)
    decreases y
  {
    if y != RootId {
      assert ParentOk(ns, y);
      UnderRoot(ns, nextId, ns[y].parent);
    }
  }
}
