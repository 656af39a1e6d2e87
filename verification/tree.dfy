/** The test-event tree of lib/tree.js: a config (root) node with id 1, suite
    nodes that own an ordered child list and a lookup map, leaf (test) nodes
    with a status, and the start/finish lines every node writes.

    The tree is an immutable store from node id to node record; `finished`
    holds the ids whose `isFinished` flag is set, and `log` is everything
    written to the sink while the tree exists. */
module TestTree {
  import opened Base
  import opened Messages

  const RootId: nat := 1
  /** The parent id written for the root, which has no parent node. */
  const NoParent: nat := 0

  /** What differs between a suite node and a leaf (test) node. A leaf's
      status stays `None` until `setStatus` is called. */
  datatype Body =
    | Suite(children: seq<nat>, lookup: map<string, nat>)
    | Leaf(status: Option<int>, duration: Option<int>, failureMsg: string)

  datatype Node = Node(parent: nat, name: string, nodeType: Option<string>,
                       hint: Option<string>, body: Body)

  datatype Tree = Tree(nodes: map<nat, Node>, finished: set<nat>, nextId: nat, log: seq<Line>)

  /** Exceptions thrown by the tree. */
  datatype Error =
    | FinishedParent                       // addChild on a finished node
    | UnexpectedStatus(status: Option<int>) // a leaf finished with no valid status

  /** The children of a node; a leaf has none. */
  function Kids(n: Node): seq<nat> {
    if n.body.Suite? then n.body.children else []
  }

  predicate IsSuite(t: Tree, x: nat) {
    x in t.nodes && t.nodes[x].body.Suite?
  }

  // ---------------------------------------------------------------------
  // Structural invariant

  /** A non-root node's parent is an older suite that lists it as a child. */
  ghost predicate ParentOk(ns: map<nat, Node>, x: nat)
    requires x in ns
  {
    var p := ns[x].parent;
    && 1 <= p < x
    && p in ns && ns[p].body.Suite?
    && x in ns[p].body.children
  }

  /** A suite's children exist, point back to it, are listed in creation
      (strictly increasing id) order, and its lookup map only names them. */
  ghost predicate KidsOk(ns: map<nat, Node>, p: nat)
    requires p in ns
  {
    var kids := Kids(ns[p]);
    && (forall i :: 0 <= i < |kids| ==> kids[i] in ns && ns[kids[i]].parent == p)
    && (forall i, j :: 0 <= i < j < |kids| ==> kids[i] < kids[j])
    && LookupInKids(ns[p])
  }

  ghost predicate LookupInKids(n: Node) {
    n.body.Suite? ==> forall k :: k in n.body.lookup ==> n.body.lookup[k] in n.body.children
  }

  /** Ids 1 .. nextId-1 are exactly the nodes; 1 is the root suite. The
      per-node facts are only unfolded where a proof names them, so that the
      parent chain does not unfold without end. */
  ghost predicate ValidStore(ns: map<nat, Node>, nextId: nat) {
    && RootId in ns && ns[RootId].body.Suite?
    && ns[RootId].parent == NoParent
    && (forall x :: x in ns <==> 1 <= x < nextId)
    && (forall x {:trigger ParentOk(ns, x)} :: x in ns && x != RootId ==> ParentOk(ns, x))
    && (forall p {:trigger KidsOk(ns, p)} :: p in ns ==> KidsOk(ns, p))
  }

  ghost predicate Valid(t: Tree) {
    ValidStore(t.nodes, t.nextId)
  }

  /** Every leaf is finished: the precondition of a finish cascade, because a
      leaf has no child list for `finishIfStarted` to walk. */
  ghost predicate LeavesFinished(t: Tree) {
    forall x :: x in t.nodes && t.nodes[x].body.Leaf? ==> x in t.finished
  }

  // ---------------------------------------------------------------------
  // Construction

  /** `new Tree(configFilePath, write)`: the root is the config node. Its name
      (the base name of the config path) is computed by the caller. */
  function NewTree(rootName: string, configFilePath: string): (t: Tree)
    ensures Valid(t)
    ensures t.nodes.Keys == {RootId} && t.nextId == 2
    ensures t.nodes[RootId].nodeType == Some("config") && t.nodes[RootId].hint == Some(configFilePath)
    ensures Kids(t.nodes[RootId]) == [] && t.finished == {} && t.log == []
  {
    Tree(map[RootId := Node(NoParent, rootName, Some("config"), Some(configFilePath), Suite([], map[]))],
         {}, 2, [])
  }

  /** The node record `addChild` creates. */
  function NewNode(parent: nat, name: string, isSuite: bool, nodeType: Option<string>,
                   hint: Option<string>): Node
  {
    Node(parent, name, nodeType, hint, if isSuite then Suite([], map[]) else Leaf(None, None, ""))
  }

  /** `TestSuiteNode.addChild`: throws on a finished node, otherwise takes the
      next id and appends the new node to this node's children. */
  function AddChild(t: Tree, p: nat, name: string, isSuite: bool, nodeType: Option<string>,
                    hint: Option<string>): (r: Result<(Tree, nat), Error>)
    requires IsSuite(t, p) && t.nextId !in t.nodes
    ensures r.Failure? <==> p in t.finished
    ensures r.Failure? ==> r.error == FinishedParent
    ensures r.Success? ==>
      var (t', c) := r.value;
      && c == t.nextId && t'.nextId == t.nextId + 1
      && t'.nodes.Keys == t.nodes.Keys + {c}
      && t'.nodes[c] == NewNode(p, name, isSuite, nodeType, hint)
      && IsSuite(t', p)
      && t'.nodes[p].body.children == t.nodes[p].body.children + [c]
      && t'.nodes[p].body.lookup == t.nodes[p].body.lookup
      && (forall x :: x in t.nodes && x != p && x != c ==> t'.nodes[x] == t.nodes[x])
      && t'.finished == t.finished && t'.log == t.log
    ensures r.Success? && Valid(t) ==> Valid(r.value.0)
  {
    if p in t.finished then Failure(FinishedParent)
    else
      var c := t.nextId;
      var child := NewNode(p, name, isSuite, nodeType, hint);
      var t' := t.(nodes := Added(t.nodes, p, c, child), nextId := c + 1);
      assert Valid(t) ==> Valid(t') by {
        if Valid(t) { AddChildValid(t.nodes, c, p, child); }
      }
      Success((t', c))
  }

  /** `lookupMap[key] = child` on a suite, done by the reporter right after it
      creates `child`. */
  function Register(t: Tree, p: nat, key: string, child: nat): (t': Tree)
    requires IsSuite(t, p) && child in t.nodes[p].body.children
    ensures IsSuite(t', p) && t'.nodes[p].body.lookup == t.nodes[p].body.lookup[key := child]
    ensures t'.nodes.Keys == t.nodes.Keys && t'.nodes[p].body.children == t.nodes[p].body.children
    ensures forall x :: x in t.nodes && x != p ==> t'.nodes[x] == t.nodes[x]
    ensures t'.finished == t.finished && t'.log == t.log && t'.nextId == t.nextId
    ensures Valid(t) ==> Valid(t')
  {
    var n := t.nodes[p];
    var t' := t.(nodes := t.nodes[p := n.(body := n.body.(lookup := n.body.lookup[key := child]))]);
    assert Valid(t) ==> Valid(t') by {
      if Valid(t) { assert KidsOk(t.nodes, p); SameShapeValid(t, t'); }
    }
    t'
  }

  // ---------------------------------------------------------------------
  // Lines

  function StartCommand(n: Node): string {
    if n.body.Suite? then "testSuiteStarted" else "testStarted"
  }

  /** The finish command, or `None` where `getFinishCommandName` throws: a
      leaf whose status is unset or outside 0..3. Status 1 (skipped) is
      reported as a failure, like 2 and 3. */
  function FinishCommand(n: Node): (c: Option<string>)
    ensures n.body.Suite? ==> c == Some("testSuiteFinished")
    ensures n.body.Leaf? ==> (c.None? <==> n.body.status.None? || !(0 <= n.body.status.value <= 3))
    ensures n.body.Leaf? && c.Some? ==>
      (c.value == "testFinished" <==> n.body.status == Some(0)) &&
      (c.value == "testFailed" <==> n.body.status != Some(0))
  {
    match n.body
    case Suite(_, _) => Some("testSuiteFinished")
    case Leaf(status, _, _) =>
      if status == Some(0) then Some("testFinished")
      else if status == Some(1) || status == Some(2) || status == Some(3) then Some("testFailed")
      else None
  }

  function FinishExtras(n: Node): Extras {
    match n.body
    case Suite(_, _) => NoExtras
    case Leaf(status, duration, failureMsg) => LeafExtras(duration, status.GetOr(-1), failureMsg)
  }

  /** `getStartMessage` of node `id`. */
  function StartLineOf(n: Node, id: nat): (l: Line)
    ensures l.StartLine? && l.id == id && l.parentId == n.parent && PlainCommand(l.command)
    ensures l.command == "testSuiteStarted" <==> n.body.Suite?
    ensures l.command == "testStarted" <==> n.body.Leaf?
    ensures l.name == n.name && l.nodeType == n.nodeType && l.hint == n.hint
  {
    StartLine(StartCommand(n), id, n.parent, n.name, n.nodeType, n.hint)
  }

  /** `getFinishMessage` of node `id`, or the exception it throws. */
  function FinishLineOf(n: Node, id: nat): (r: Result<Line, Error>)
    ensures r.Success? <==> FinishCommand(n).Some?
    ensures r.Success? ==> r.value.FinishLine? && r.value.id == id && PlainCommand(r.value.command)
    ensures r.Success? ==> r.value.command == FinishCommand(n).value && r.value.extras == FinishExtras(n)
    ensures r.Failure? ==> r.error == UnexpectedStatus(n.body.status)
  {
    match FinishCommand(n)
    case None => Failure(UnexpectedStatus(n.body.status))
    case Some(command) => Success(FinishLine(command, id, FinishExtras(n)))
  }

  /** The lines `writeStartMessage` writes for node `x`. */
  function StartLines(t: Tree, x: nat): seq<Line>
    requires x in t.nodes && (t.nodes[x].parent == RootId ==> RootId in t.nodes)
  {
    (if t.nodes[x].parent == RootId then [StartLineOf(t.nodes[RootId], RootId)] else [])
    + [StartLineOf(t.nodes[x], x)]
  }

  /** `Node.writeStartMessage`: a child of the root first re-writes the root's
      start line, every time. */
  function WriteStart(t: Tree, x: nat): (t': Tree)
    requires x in t.nodes && (t.nodes[x].parent == RootId ==> RootId in t.nodes)
    ensures t'.nodes == t.nodes && t'.finished == t.finished && t'.nextId == t.nextId
    ensures t'.log == t.log + StartLines(t, x)
    ensures t.nodes[x].parent == RootId ==>
      t'.log == t.log + [StartLineOf(t.nodes[RootId], RootId), StartLineOf(t.nodes[x], x)]
    ensures t.nodes[x].parent != RootId ==> t'.log == t.log + [StartLineOf(t.nodes[x], x)]
    ensures Valid(t) ==> Valid(t')
  {
    t.(log := t.log + StartLines(t, x))
  }

  /** The root with no children writes its start line before finishing. */
  predicate ChildlessRoot(t: Tree, x: nat)
    requires x in t.nodes
  {
    x == RootId && t.nodes[x].body.Suite? && t.nodes[x].body.children == []
  }

  /** `Node.writeFinishMessage`: no double-finish guard; throws only for a leaf
      without a valid status, before writing anything. */
  function WriteFinish(t: Tree, x: nat): (r: Result<Tree, Error>)
    requires x in t.nodes
    ensures r.Failure? <==> FinishCommand(t.nodes[x]).None?
    ensures r.Failure? ==> r.error == UnexpectedStatus(t.nodes[x].body.status)
    ensures r.Success? ==>
      && r.value.nodes == t.nodes && r.value.nextId == t.nextId
      && r.value.finished == t.finished + {x}
      && r.value.log == t.log + (if ChildlessRoot(t, x) then [StartLineOf(t.nodes[x], x)] else [])
                              + [FinishLineOf(t.nodes[x], x).value]
    ensures r.Success? && Valid(t) ==> Valid(r.value)
  {
    match FinishLineOf(t.nodes[x], x)
    case Failure(e) => Failure(e)
    case Success(line) =>
      var pre := if ChildlessRoot(t, x) then [StartLineOf(t.nodes[x], x)] else [];
      Success(t.(log := t.log + pre + [line], finished := t.finished + {x}))
  }

  /** `TestNode.setStatus`: overwrites status, duration and message, however
      often it is called. */
  function SetStatus(t: Tree, x: nat, status: int, duration: Option<int>, failureMsg: string): (t': Tree)
    requires x in t.nodes && t.nodes[x].body.Leaf?
    ensures t'.nodes.Keys == t.nodes.Keys && t'.nodes[x].body == Leaf(Some(status), duration, failureMsg)
    ensures t'.nodes[x].(body := t.nodes[x].body) == t.nodes[x]
    ensures forall y :: y in t.nodes && y != x ==> t'.nodes[y] == t.nodes[y]
    ensures t'.finished == t.finished && t'.log == t.log && t'.nextId == t.nextId
    ensures Valid(t) ==> Valid(t')
  {
    var n := t.nodes[x];
    var t' := t.(nodes := t.nodes[x := n.(body := Leaf(Some(status), duration, failureMsg))]);
    assert Valid(t) ==> Valid(t') by {
      if Valid(t) { SameShapeValid(t, t'); }
    }
    t'
  }

  // ---------------------------------------------------------------------
  // The finish cascade

  /** The finish of a suite never throws. */
  function FinishSuite(t: Tree, x: nat): (t': Tree)
    requires IsSuite(t, x)
    ensures t'.nodes == t.nodes && t'.nextId == t.nextId && t'.finished == t.finished + {x}
    ensures t'.log == t.log + (if ChildlessRoot(t, x) then [StartLineOf(t.nodes[x], x)] else [])
                            + [FinishLine("testSuiteFinished", x, NoExtras)]
  {
    WriteFinish(t, x).value
  }

  /** `Node.finishIfStarted`: a finished node writes nothing; otherwise every
      child is finished in creation order, then the node itself. */
  function FinishIfStarted(t: Tree, x: nat): (t': Tree)
    requires Valid(t) && LeavesFinished(t) && x in t.nodes
    ensures Valid(t') && LeavesFinished(t')
    ensures t'.nodes == t.nodes && t'.nextId == t.nextId
    ensures t.finished <= t'.finished && x in t'.finished
    ensures t.log <= t'.log
    decreases t.nextId - x, 1
  {
    if x in t.finished then t
    else FinishSuite(FinishChildren(t, x, 0), x)
  }

  /** The loop of `finishIfStarted` over `children[i..]`. */
  function FinishChildren(t: Tree, x: nat, i: nat): (t': Tree)
    requires Valid(t) && LeavesFinished(t) && IsSuite(t, x) && i <= |t.nodes[x].body.children|
    ensures Valid(t') && LeavesFinished(t')
    ensures t'.nodes == t.nodes && t'.nextId == t.nextId
    ensures t.finished <= t'.finished && t.log <= t'.log
    decreases t.nextId - x, 0, |t.nodes[x].body.children| - i
  {
    var kids := t.nodes[x].body.children;
    if i == |kids| then t
    else
      assert KidsOk(t.nodes, x);
      assert ParentOk(t.nodes, kids[i]);
      var t1 := FinishIfStarted(t, kids[i]);
      FinishChildren(t1, x, i + 1)
  }

  // ---------------------------------------------------------------------
  // Preservation of the structural invariant

  /** A node record changed at most in ways the invariant does not see. */
  ghost predicate SameNodeShape(n: Node, n': Node) {
    && n'.parent == n.parent
    && n'.body.Suite? == n.body.Suite?
    && Kids(n') == Kids(n)
    && LookupInKids(n')
  }

  /** Two trees with the same ids, parents and child lists. */
  ghost predicate SameShape(t: Tree, t': Tree) {
    && t'.nodes.Keys == t.nodes.Keys && t'.nextId == t.nextId
    && (forall x :: x in t.nodes ==> t'.nodes[x] == t.nodes[x] || SameNodeShape(t.nodes[x], t'.nodes[x]))
  }

  lemma SameShapeValid(t: Tree, t': Tree)
    requires Valid(t) && SameShape(t, t')
    ensures Valid(t')
  {
    forall x | x in t'.nodes && x != RootId
      ensures ParentOk(t'.nodes, x)
    {
      assert ParentOk(t.nodes, x);
      var p := t.nodes[x].parent;
      assert Kids(t'.nodes[p]) == Kids(t.nodes[p]);
    }
    forall q | q in t'.nodes
      ensures KidsOk(t'.nodes, q)
    {
      assert KidsOk(t.nodes, q);
      var kids := Kids(t.nodes[q]);
      forall i | 0 <= i < |kids|
        ensures t'.nodes[kids[i]].parent == q
      {
        assert kids[i] in t.nodes;
      }
    }
  }

  /** The store after `addChild` appends `c` under `p`. */
  function Added(ns: map<nat, Node>, p: nat, c: nat, child: Node): map<nat, Node>
    requires p in ns && ns[p].body.Suite?
  {
    var n := ns[p];
    ns[p := n.(body := n.body.(children := n.body.children + [c]))][c := child]
  }

  lemma AddedParentOk(ns: map<nat, Node>, nextId: nat, p: nat, child: Node, x: nat)
    requires ValidStore(ns, nextId) && p in ns && ns[p].body.Suite? && child.parent == p
    requires x in Added(ns, p, nextId, child) && x != RootId
    ensures ParentOk(Added(ns, p, nextId, child), x)
  {
    var ns' := Added(ns, p, nextId, child);
    if x != nextId {
      assert ParentOk(ns, x);
      var q := ns[x].parent;
      assert ns'[q].body.Suite? && x in ns'[q].body.children;
    }
  }

  lemma AddedKidsOk(ns: map<nat, Node>, nextId: nat, p: nat, child: Node, q: nat)
    requires ValidStore(ns, nextId) && p in ns && ns[p].body.Suite?
    requires child.parent == p && Kids(child) == [] && LookupInKids(child)
    requires q in Added(ns, p, nextId, child)
    ensures KidsOk(Added(ns, p, nextId, child), q)
  {
    var ns' := Added(ns, p, nextId, child);
    if q != nextId {
      assert KidsOk(ns, q);
      var kids := Kids(ns[q]);
      var kids' := Kids(ns'[q]);
      forall k | k in kids
        ensures k in ns && k < nextId && k in ns' && ns'[k].parent == ns[k].parent
      {
        assert k in ns;
      }
      if q == p {
        assert kids' == kids + [nextId];
        assert forall i :: 0 <= i < |kids| ==> kids'[i] == kids[i];
      } else {
        assert kids' == kids;
      }
    }
  }

  lemma AddChildValid(ns: map<nat, Node>, nextId: nat, p: nat, child: Node)
    requires ValidStore(ns, nextId) && p in ns && ns[p].body.Suite?
    requires child.parent == p && Kids(child) == [] && LookupInKids(child)
    ensures ValidStore(Added(ns, p, nextId, child), nextId + 1)
  {
    var ns' := Added(ns, p, nextId, child);
    forall x | x in ns' && x != RootId
      ensures ParentOk(ns', x)
    {
      AddedParentOk(ns, nextId, p, child, x);
    }
    forall q | q in ns'
      ensures KidsOk(ns', q)
    {
      AddedKidsOk(ns, nextId, p, child, q);
    }
  }
}
