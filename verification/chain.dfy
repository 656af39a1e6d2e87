/** The suite-chain walk of `getOrCreateLowerSuiteNode` against a plan of
    what its loop visits, and the consequences: a chain without nulls is
    reached by following its names through the lookup maps, and walking it
    again changes nothing. */
module SuiteChain {
  import opened Base
  import opened Messages
  import opened TestTree
  import opened Reporter

  /** The suite reached from `node` by following `path` through the lookup
      maps, if every step is registered. */
  function Follow(t: Tree, node: nat, path: seq<string>): (r: Option<nat>)
    requires Ready(t) && IsSuite(t, node)
    ensures r.Some? ==> IsSuite(t, r.value)
    ensures path == [] ==> r == Some(node)
    decreases |path|
  {
    if path == [] then Some(node)
    else if path[0] in t.nodes[node].body.lookup then
      Follow(t, t.nodes[node].body.lookup[path[0]], path[1..])
    else None
  }

  /** What the loop does from index `i` with the length `len` read before
      it: the names it follows, the number of diagnostic lines it writes, and
      the array as its splicing leaves it. */
  datatype Plan = Plan(visited: seq<string>, diagnostics: nat, names: seq<Option<string>>)

  function PlanOf(names: seq<Option<string>>, i: nat, len: nat): Plan
    decreases len - i
  {
    if i >= len then Plan([], 0, names)
    else if i >= |names| || names[i].None? then
      var p := PlanOf(Splice(names, i), i + 1, len);
      p.(diagnostics := p.diagnostics + 1)
    else
      var p := PlanOf(names, i + 1, len);
      p.(visited := [names[i].value] + p.visited)
  }

  predicate NoNulls(names: seq<Option<string>>) {
    forall i :: 0 <= i < |names| ==> names[i].Some?
  }

  function Values(names: seq<Option<string>>): (r: seq<string>)
    requires NoNulls(names)
    ensures |r| == |names| && forall i :: 0 <= i < |names| ==> r[i] == names[i].value
  {
    if names == [] then [] else [names[0].value] + Values(names[1..])
  }

  /** The number of null-suite diagnostic lines. */
  function Diagnostics(log: seq<Line>): nat {
    if log == [] then 0
    else Diagnostics(log[..|log| - 1]) + (if log[|log| - 1].NullSuiteName? then 1 else 0)
  }

  lemma {:induction false} DiagnosticsAppend(a: seq<Line>, b: seq<Line>)
    ensures Diagnostics(a + b) == Diagnostics(a) + Diagnostics(b)
    decreases |b|
  {
    if b == [] {
      assert a + b == a;
    } else {
      assert (a + b)[..|a + b| - 1] == a + b[..|b| - 1];
      DiagnosticsAppend(a, b[..|b| - 1]);
    }
  }

  /** Suites stay suites, and registered names stay registered to the same
      node. */
  ghost predicate LookupsGrow(t: Tree, t': Tree) {
    && (forall p :: IsSuite(t, p) ==> IsSuite(t', p))
    && (forall p, k :: IsSuite(t, p) && k in t.nodes[p].body.lookup ==>
          IsSuite(t', p) && k in t'.nodes[p].body.lookup
          && t'.nodes[p].body.lookup[k] == t.nodes[p].body.lookup[k])
  }

  lemma LookupsGrowTrans(t: Tree, t1: Tree, t2: Tree)
    requires LookupsGrow(t, t1) && LookupsGrow(t1, t2)
    ensures LookupsGrow(t, t2)
  {
    forall p, k | IsSuite(t, p) && k in t.nodes[p].body.lookup
      ensures IsSuite(t2, p) && k in t2.nodes[p].body.lookup
      ensures t2.nodes[p].body.lookup[k] == t.nodes[p].body.lookup[k]
    {
      assert IsSuite(t1, p) && k in t1.nodes[p].body.lookup;
    }
  }

  lemma {:induction false} FollowGrows(t: Tree, t': Tree, node: nat, path: seq<string>)
    requires Ready(t) && Ready(t') && IsSuite(t, node) && LookupsGrow(t, t')
    requires Follow(t, node, path).Some?
    ensures IsSuite(t', node) && Follow(t', node, path) == Follow(t, node, path)
    decreases |path|
  {
    if path != [] {
      var next := t.nodes[node].body.lookup[path[0]];
      FollowGrows(t, t', next, path[1..]);
    }
  }

  /** Creating a node registers at most one new name and disturbs no other. */
  lemma CreateStartedGrows(t: Tree, p: nat, name: string, isSuite: bool, nodeType: string,
                           hint: Option<string>, key: Option<string>)
    requires Ready(t) && IsSuite(t, p) && (key.Some? ==> isSuite && key.value !in t.nodes[p].body.lookup)
    requires CreateStarted(t, p, name, isSuite, nodeType, hint, key).Success?
    ensures LookupsGrow(t, CreateStarted(t, p, name, isSuite, nodeType, hint, key).value.0)
  {
    var (t', c) := CreateStarted(t, p, name, isSuite, nodeType, hint, key).value;
    forall q | IsSuite(t, q) ensures IsSuite(t', q) {
      if q != p { assert t'.nodes[q] == t.nodes[q]; }
    }
    forall q, k | IsSuite(t, q) && k in t.nodes[q].body.lookup
      ensures IsSuite(t', q) && k in t'.nodes[q].body.lookup
      ensures t'.nodes[q].body.lookup[k] == t.nodes[q].body.lookup[k]
    {
      if q != p { assert t'.nodes[q] == t.nodes[q]; }
    }
  }

  /** The walk loses nothing registered. */
  lemma {:induction false} WalkGrows(t: Tree, node: nat, names: seq<Option<string>>, i: nat, len: nat,
                                     join: JoinList)
    requires Ready(t) && IsSuite(t, node)
    ensures LookupsGrow(t, WalkSuites(t, node, names, i, len, join).tree)
    decreases len - i
  {
    if i < len {
      if i >= |names| || names[i].None? {
        var t1 := t.(log := t.log + [NullSuiteName]);
        ReadyWithLog(t, t1);
        WalkGrows(t1, node, Splice(names, i), i + 1, len, join);
      } else if names[i].value in t.nodes[node].body.lookup {
        WalkGrows(t, t.nodes[node].body.lookup[names[i].value], names, i + 1, len, join);
      } else {
        var name := names[i].value;
        var hint := join(names, 0, i + 1, ".");
        var r := CreateStarted(t, node, name, true, "suite", Some(hint), Some(name));
        if r.Success? {
          CreateStartedGrows(t, node, name, true, "suite", Some(hint), Some(name));
          WalkGrows(r.value.0, r.value.1, names, i + 1, len, join);
          LookupsGrowTrans(t, r.value.0, WalkSuites(t, node, names, i, len, join).tree);
        }
      }
    }
  }

  /** The walk follows its plan: the array it hands back is the plan's, the
      node it returns is reached by following the visited names, and it writes
      the planned number of diagnostics. */
  ghost predicate WalkFits(t: Tree, node: nat, names: seq<Option<string>>, i: nat, len: nat, join: JoinList)
    requires Ready(t) && IsSuite(t, node)
  {
    var w := WalkSuites(t, node, names, i, len, join);
    var plan := PlanOf(names, i, len);
    w.Walked? ==>
      && w.names == plan.names
      && IsSuite(w.tree, node) && Follow(w.tree, node, plan.visited) == Some(w.node)
      && Diagnostics(w.tree.log[|t.log|..]) == plan.diagnostics
  }

  lemma {:induction false} WalkMatchesPlan(t: Tree, node: nat, names: seq<Option<string>>, i: nat, len: nat,
                                           join: JoinList)
    requires Ready(t) && IsSuite(t, node)
    ensures WalkFits(t, node, names, i, len, join)
    decreases len - i, 1
  {
    if i >= len {
      assert WalkSuites(t, node, names, i, len, join).tree.log[|t.log|..] == [];
    } else if i >= |names| || names[i].None? {
      WalkNullStep(t, node, names, i, len, join);
    } else if names[i].value in t.nodes[node].body.lookup {
      WalkFoundStep(t, node, names, i, len, join);
    } else {
      WalkCreateStep(t, node, names, i, len, join);
    }
  }

  lemma {:induction false} WalkNullStep(t: Tree, node: nat, names: seq<Option<string>>, i: nat, len: nat,
                                        join: JoinList)
    requires Ready(t) && IsSuite(t, node) && i < len && (i >= |names| || names[i].None?)
    ensures WalkFits(t, node, names, i, len, join)
    decreases len - i, 0
  {
    var w := WalkSuites(t, node, names, i, len, join);
    var t1 := t.(log := t.log + [NullSuiteName]);
    ReadyWithLog(t, t1);
    assert w == WalkSuites(t1, node, Splice(names, i), i + 1, len, join);
    WalkMatchesPlan(t1, node, Splice(names, i), i + 1, len, join);
    if w.Walked? {
      NullDiagnostic(t.log, w.tree.log);
    }
  }

  /** Readiness does not depend on the log. */
  lemma ReadyWithLog(t: Tree, t': Tree)
    requires Ready(t) && t'.nodes == t.nodes && t'.nextId == t.nextId
    ensures Ready(t') && forall q :: IsSuite(t', q) <==> IsSuite(t, q)
  {
    assert forall q :: IsSuite(t', q) <==> IsSuite(t, q);
  }

  lemma NullDiagnostic(log: seq<Line>, log': seq<Line>)
    requires log + [NullSuiteName] <= log'
    ensures Diagnostics(log'[|log|..]) == 1 + Diagnostics(log'[|log| + 1..])
  {
    assert log'[|log|..] == [NullSuiteName] + log'[|log| + 1..];
    DiagnosticsAppend([NullSuiteName], log'[|log| + 1..]);
    assert [NullSuiteName][..0] == [];
  }

  lemma {:induction false} WalkFoundStep(t: Tree, node: nat, names: seq<Option<string>>, i: nat, len: nat,
                                         join: JoinList)
    requires Ready(t) && IsSuite(t, node) && i < len && i < |names| && names[i].Some?
    requires names[i].value in t.nodes[node].body.lookup
    ensures WalkFits(t, node, names, i, len, join)
    decreases len - i, 0
  {
    var name := names[i].value;
    var next := t.nodes[node].body.lookup[name];
    var w := WalkSuites(t, node, names, i, len, join);
    assert w == WalkSuites(t, next, names, i + 1, len, join);
    WalkMatchesPlan(t, next, names, i + 1, len, join);
    WalkGrows(t, next, names, i + 1, len, join);
    if w.Walked? {
      var rest := PlanOf(names, i + 1, len);
      assert PlanOf(names, i, len).visited == [name] + rest.visited;
      FollowThrough(t, w.tree, node, name, next, rest.visited);
    }
  }

  lemma {:induction false} WalkCreateStep(t: Tree, node: nat, names: seq<Option<string>>, i: nat, len: nat,
                                          join: JoinList)
    requires Ready(t) && IsSuite(t, node) && i < len && i < |names| && names[i].Some?
    requires names[i].value !in t.nodes[node].body.lookup
    ensures WalkFits(t, node, names, i, len, join)
    decreases len - i, 0
  {
    var name := names[i].value;
    var hint := join(names, 0, i + 1, ".");
    var r := CreateStarted(t, node, name, true, "suite", Some(hint), Some(name));
    if r.Success? {
      var t1 := r.value.0;
      var c := r.value.1;
      WalkCreateUnfold(t, node, names, i, len, join, t1, c);
      CreatedSuiteShape(t, node, name, hint, t1, c);
      var w := WalkSuites(t1, c, names, i + 1, len, join);
      WalkMatchesPlan(t1, c, names, i + 1, len, join);
      WalkGrows(t1, c, names, i + 1, len, join);
      if w.Walked? {
        CreateThenFollow(t, t1, w, node, name, c, names, i, len);
      }
    }
  }

  /** What the walk relies on about a suite it has just created. */
  lemma CreatedSuiteShape(t: Tree, node: nat, name: string, hint: string, t1: Tree, c: nat)
    requires Ready(t) && IsSuite(t, node) && name !in t.nodes[node].body.lookup
    requires CreateStarted(t, node, name, true, "suite", Some(hint), Some(name)) == Success((t1, c))
    ensures Ready(t1) && IsSuite(t1, node) && IsSuite(t1, c)
    ensures name in t1.nodes[node].body.lookup && t1.nodes[node].body.lookup[name] == c
    ensures t.log <= t1.log && forall j :: |t.log| <= j < |t1.log| ==> t1.log[j].StartLine?
  {
    var roots := if node == RootId then [StartLineOf(t.nodes[RootId], RootId)] else [];
    var added := roots + [StartLineOf(t1.nodes[c], c)];
    assert t1.log == t.log + added;
    assert forall j :: 0 <= j < |added| ==> added[j].StartLine?;
  }

  /** The created suite's rest of the walk, seen from the suite it was
      created in. */
  lemma CreateThenFollow(t: Tree, t1: Tree, w: Walked, node: nat, name: string, c: nat,
                         names: seq<Option<string>>, i: nat, len: nat)
    requires Ready(t1) && IsSuite(t1, node) && IsSuite(t1, c)
    requires name in t1.nodes[node].body.lookup && t1.nodes[node].body.lookup[name] == c
    requires t.log <= t1.log && forall j :: |t.log| <= j < |t1.log| ==> t1.log[j].StartLine?
    requires i < len && i < |names| && names[i] == Some(name)
    requires w.Walked? && Ready(w.tree) && LookupsGrow(t1, w.tree) && t1.log <= w.tree.log
    requires w.names == PlanOf(names, i + 1, len).names
    requires IsSuite(w.tree, c) && Follow(w.tree, c, PlanOf(names, i + 1, len).visited) == Some(w.node)
    requires Diagnostics(w.tree.log[|t1.log|..]) == PlanOf(names, i + 1, len).diagnostics
    ensures w.names == PlanOf(names, i, len).names && IsSuite(w.tree, node)
    ensures Follow(w.tree, node, PlanOf(names, i, len).visited) == Some(w.node)
    ensures Diagnostics(w.tree.log[|t.log|..]) == PlanOf(names, i, len).diagnostics
  {
    var rest := PlanOf(names, i + 1, len);
    assert PlanOf(names, i, len).visited == [name] + rest.visited;
    FollowThrough(t1, w.tree, node, name, c, rest.visited);
    CreatedNoDiagnostics(t.log, t1.log, w.tree.log);
  }

  /** Following `[name] + path` from `node` is following `path` from the node
      `name` was registered to, however the tree grew since. */
  lemma FollowThrough(t: Tree, t': Tree, node: nat, name: string, c: nat, path: seq<string>)
    requires Ready(t) && Ready(t') && IsSuite(t, node) && LookupsGrow(t, t')
    requires name in t.nodes[node].body.lookup && t.nodes[node].body.lookup[name] == c
    ensures IsSuite(t', node) && IsSuite(t', c)
    ensures Follow(t', node, [name] + path) == Follow(t', c, path)
  {
    assert ([name] + path)[1..] == path;
  }

  lemma CreatedNoDiagnostics(log: seq<Line>, log1: seq<Line>, log': seq<Line>)
    requires log <= log1 <= log'
    requires forall j :: |log| <= j < |log1| ==> log1[j].StartLine?
    ensures Diagnostics(log'[|log|..]) == Diagnostics(log'[|log1|..])
  {
    var added := log1[|log|..];
    assert log'[|log|..] == added + log'[|log1|..];
    DiagnosticsAppend(added, log'[|log1|..]);
    NoDiagnosticsInStarts(added);
  }

  lemma {:induction false} NoDiagnosticsInStarts(lines: seq<Line>)
    requires forall j :: 0 <= j < |lines| ==> lines[j].StartLine?
    ensures Diagnostics(lines) == 0
    decreases |lines|
  {
    if lines != [] {
      NoDiagnosticsInStarts(lines[..|lines| - 1]);
    }
  }

  // ---------------------------------------------------------------------
  // The suites the walk creates

  /** Where the loop read each name it visits: the array as its splicing had
      left it, and the index. A created suite's hint is built from these. */
  function ReadsOf(names: seq<Option<string>>, i: nat, len: nat): (r: seq<(seq<Option<string>>, nat)>)
    ensures |r| == |PlanOf(names, i, len).visited|
    decreases len - i
  {
    if i >= len then []
    else if i >= |names| || names[i].None? then ReadsOf(Splice(names, i), i + 1, len)
    else [(names, i)] + ReadsOf(names, i + 1, len)
  }

  /** How many leading names of `path` are already registered along the way
      from `node`. */
  function Registered(nodes: map<nat, Node>, node: nat, path: seq<string>): (k: nat)
    ensures k <= |path|
    decreases |path|
  {
    if path != [] && node in nodes && nodes[node].body.Suite? && path[0] in nodes[node].body.lookup
    then 1 + Registered(nodes, nodes[node].body.lookup[path[0]], path[1..])
    else 0
  }

  /** The registered part of a path is followed to a suite, and the first
      name after it is missing from that suite's lookup map. */
  lemma {:induction false} RegisteredFollows(t: Tree, node: nat, path: seq<string>)
    requires Ready(t) && IsSuite(t, node)
    ensures var k := Registered(t.nodes, node, path);
      && Follow(t, node, path[..k]).Some?
      && (k < |path| ==> path[k] !in t.nodes[Follow(t, node, path[..k]).value].body.lookup)
    decreases |path|
  {
    var k := Registered(t.nodes, node, path);
    if k == 0 {
      assert path[..k] == [];
    } else {
      var next := t.nodes[node].body.lookup[path[0]];
      RegisteredFollows(t, next, path[1..]);
      assert path[..k][0] == path[0] && path[..k][1..] == path[1..][..k - 1];
      assert k < |path| ==> path[k] == path[1..][k - 1];
    }
  }

  /** What a start line shows of a node, which the walk never changes. */
  ghost predicate SameHead(n: Node, n': Node) {
    n'.parent == n.parent && n'.name == n.name && n'.nodeType == n.nodeType && n'.hint == n.hint
    && n'.body.Suite? == n.body.Suite?
  }

  ghost predicate HeadsKept(t: Tree, t': Tree) {
    forall q :: q in t.nodes ==> q in t'.nodes && SameHead(t.nodes[q], t'.nodes[q])
  }

  lemma {:induction false} WalkKeepsHeads(t: Tree, node: nat, names: seq<Option<string>>, i: nat, len: nat,
                                          join: JoinList)
    requires Ready(t) && IsSuite(t, node)
    ensures HeadsKept(t, WalkSuites(t, node, names, i, len, join).tree)
    decreases len - i
  {
    if i < len {
      if i >= |names| || names[i].None? {
        var t1 := t.(log := t.log + [NullSuiteName]);
        ReadyWithLog(t, t1);
        WalkKeepsHeads(t1, node, Splice(names, i), i + 1, len, join);
      } else if names[i].value in t.nodes[node].body.lookup {
        WalkKeepsHeads(t, t.nodes[node].body.lookup[names[i].value], names, i + 1, len, join);
      } else {
        var name := names[i].value;
        var r := CreateStarted(t, node, name, true, "suite", Some(join(names, 0, i + 1, ".")), Some(name));
        if r.Success? {
          var (t1, c) := r.value;
          var w := WalkSuites(t1, c, names, i + 1, len, join);
          WalkKeepsHeads(t1, c, names, i + 1, len, join);
          forall q | q in t.nodes ensures q in w.tree.nodes && SameHead(t.nodes[q], w.tree.nodes[q]) {
            assert q in t1.nodes && SameHead(t.nodes[q], t1.nodes[q]);
          }
        }
      }
    }
  }

  /** The suite `first + (j - e)` is the one the walk created for the `j`-th
      visited name: a started suite of that name and of type `suite`, whose
      hint joins the array the name was read from up to and including it,
      registered under the name in the node the walk had reached. */
  ghost predicate CreatedAt(w: Tree, node: nat, visited: seq<string>, readAt: seq<(seq<Option<string>>, nat)>,
                            j: nat, e: nat, first: nat, join: JoinList)
    requires Ready(w) && IsSuite(w, node) && e <= j < |visited| == |readAt|
  {
    var (arr, k) := readAt[j];
    var c := first + (j - e);
    var p := Follow(w, node, visited[..j]);
    && p.Some? && IsSuite(w, c)
    && visited[j] in w.nodes[p.value].body.lookup && w.nodes[p.value].body.lookup[visited[j]] == c
    && w.nodes[c].parent == p.value && w.nodes[c].name == visited[j]
    && w.nodes[c].nodeType == Some("suite") && w.nodes[c].hint == Some(join(arr, 0, k + 1, "."))
    && StartLineOf(w.nodes[c], c) in w.log
  }

  /** The walk allocates one id per visited name past the registered part of
      the chain, in order, each a suite created for that name. */
  ghost predicate WalkCreates(t: Tree, node: nat, names: seq<Option<string>>, i: nat, len: nat, join: JoinList)
    requires Ready(t) && IsSuite(t, node)
  {
    var w := WalkSuites(t, node, names, i, len, join);
    var visited := PlanOf(names, i, len).visited;
    var readAt := ReadsOf(names, i, len);
    var e := Registered(t.nodes, node, visited);
    w.Walked? ==>
      && IsSuite(w.tree, node)
      && w.tree.nextId == t.nextId + (|visited| - e)
      && forall j :: e <= j < |visited| ==> CreatedAt(w.tree, node, visited, readAt, j, e, t.nextId, join)
  }

  lemma {:induction false} WalkCreatesSuites(t: Tree, node: nat, names: seq<Option<string>>, i: nat, len: nat,
                                             join: JoinList)
    requires Ready(t) && IsSuite(t, node)
    ensures WalkCreates(t, node, names, i, len, join)
    decreases len - i, 1
  {
    if i >= len {
    } else if i >= |names| || names[i].None? {
      var t1 := t.(log := t.log + [NullSuiteName]);
      ReadyWithLog(t, t1);
      WalkCreatesSuites(t1, node, Splice(names, i), i + 1, len, join);
      assert WalkSuites(t, node, names, i, len, join) == WalkSuites(t1, node, Splice(names, i), i + 1, len, join);
    } else if names[i].value in t.nodes[node].body.lookup {
      FoundCreates(t, node, names, i, len, join);
    } else {
      MissingCreates(t, node, names, i, len, join);
    }
  }

  lemma {:induction false} FoundCreates(t: Tree, node: nat, names: seq<Option<string>>, i: nat, len: nat,
                                        join: JoinList)
    requires Ready(t) && IsSuite(t, node) && i < len && i < |names| && names[i].Some?
    requires names[i].value in t.nodes[node].body.lookup
    ensures WalkCreates(t, node, names, i, len, join)
    decreases len - i, 0
  {
    var name := names[i].value;
    var next := t.nodes[node].body.lookup[name];
    var w := WalkSuites(t, node, names, i, len, join);
    assert w == WalkSuites(t, next, names, i + 1, len, join);
    WalkCreatesSuites(t, next, names, i + 1, len, join);
    WalkGrows(t, next, names, i + 1, len, join);
    var visited := PlanOf(names, i, len).visited;
    var rest := PlanOf(names, i + 1, len).visited;
    var readAt := ReadsOf(names, i, len);
    assert visited == [name] + rest;
    assert readAt[1..] == ReadsOf(names, i + 1, len);
    assert visited[1..] == rest;
    var e := Registered(t.nodes, next, rest);
    var e0 := Registered(t.nodes, node, visited);
    assert e0 == 1 + e;
    if w.Walked? {
      FollowThrough(t, w.tree, node, name, next, []);
      forall j | e0 <= j < |visited|
        ensures CreatedAt(w.tree, node, visited, readAt, j, e0, t.nextId, join)
      {
        ShiftCreated(w.tree, node, next, visited, readAt, j, e0, e, t.nextId, t.nextId, join);
      }
    }
  }

  lemma {:induction false} MissingCreates(t: Tree, node: nat, names: seq<Option<string>>, i: nat, len: nat,
                                          join: JoinList)
    requires Ready(t) && IsSuite(t, node) && i < len && i < |names| && names[i].Some?
    requires names[i].value !in t.nodes[node].body.lookup
    ensures WalkCreates(t, node, names, i, len, join)
    decreases len - i, 0
  {
    var name := names[i].value;
    var hint := join(names, 0, i + 1, ".");
    var r := CreateStarted(t, node, name, true, "suite", Some(hint), Some(name));
    if r.Success? {
      var (t1, c) := r.value;
      WalkCreateUnfold(t, node, names, i, len, join, t1, c);
      CreatedSuiteShape(t, node, name, hint, t1, c);
      WalkCreatesSuites(t1, c, names, i + 1, len, join);
      WalkGrows(t1, c, names, i + 1, len, join);
      WalkKeepsHeads(t1, c, names, i + 1, len, join);
      var visited := PlanOf(names, i, len).visited;
      assert visited == [name] + PlanOf(names, i + 1, len).visited;
      assert Registered(t.nodes, node, visited) == 0;
      CreatedChain(t, t1, c, node, names, i, len, join);
    }
  }

  /** The walk's ids after it created the suite `c` for the name at index
      `i`: `c` itself, then those the rest of the walk creates under it. */
  lemma CreatedChain(t: Tree, t1: Tree, c: nat, node: nat, names: seq<Option<string>>, i: nat, len: nat,
                     join: JoinList)
    requires Ready(t) && IsSuite(t, node) && i < len && i < |names| && names[i].Some?
    requires Ready(t1) && IsSuite(t1, node) && IsSuite(t1, c) && c == t.nextId && t1.nextId == c + 1
    requires t1.nodes[c] == NewNode(node, names[i].value, true, Some("suite"), Some(join(names, 0, i + 1, ".")))
    requires names[i].value in t1.nodes[node].body.lookup && t1.nodes[node].body.lookup[names[i].value] == c
    requires t1.log != [] && t1.log[|t1.log| - 1] == StartLineOf(t1.nodes[c], c)
    requires WalkSuites(t, node, names, i, len, join) == WalkSuites(t1, c, names, i + 1, len, join)
    requires Registered(t.nodes, node, PlanOf(names, i, len).visited) == 0
    requires WalkCreates(t1, c, names, i + 1, len, join)
    requires LookupsGrow(t1, WalkSuites(t1, c, names, i + 1, len, join).tree)
    requires HeadsKept(t1, WalkSuites(t1, c, names, i + 1, len, join).tree)
    ensures WalkCreates(t, node, names, i, len, join)
  {
    var w := WalkSuites(t1, c, names, i + 1, len, join);
    var visited := PlanOf(names, i, len).visited;
    var readAt := ReadsOf(names, i, len);
    assert visited == [names[i].value] + PlanOf(names, i + 1, len).visited;
    assert readAt == [(names, i)] + ReadsOf(names, i + 1, len);
    assert visited[1..] == PlanOf(names, i + 1, len).visited;
    assert readAt[1..] == ReadsOf(names, i + 1, len);
    assert Registered(t1.nodes, c, visited[1..]) == 0 by {
      assert t1.nodes[c].body.lookup == map[];
    }
    if w.Walked? {
      CreatedFrom(t1, w.tree, node, c, names, i, visited, readAt, join);
    }
  }

  lemma CreatedFrom(t1: Tree, w: Tree, node: nat, c: nat, names: seq<Option<string>>, i: nat,
                    visited: seq<string>, readAt: seq<(seq<Option<string>>, nat)>, join: JoinList)
    requires i < |names| && names[i].Some?
    requires 0 < |visited| == |readAt| && visited[0] == names[i].value && readAt[0] == (names, i)
    requires Ready(t1) && IsSuite(t1, node) && IsSuite(t1, c) && t1.nextId == c + 1
    requires t1.nodes[c] == NewNode(node, names[i].value, true, Some("suite"), Some(join(names, 0, i + 1, ".")))
    requires names[i].value in t1.nodes[node].body.lookup && t1.nodes[node].body.lookup[names[i].value] == c
    requires t1.log != [] && t1.log[|t1.log| - 1] == StartLineOf(t1.nodes[c], c)
    requires Ready(w) && LookupsGrow(t1, w) && HeadsKept(t1, w) && t1.log <= w.log
    requires IsSuite(w, c) && w.nextId == t1.nextId + (|visited| - 1)
    requires forall j :: 0 <= j < |visited| - 1 ==> CreatedAt(w, c, visited[1..], readAt[1..], j, 0, t1.nextId, join)
    ensures IsSuite(w, node) && w.nextId == c + |visited|
    ensures forall j :: 0 <= j < |visited| ==> CreatedAt(w, node, visited, readAt, j, 0, c, join)
  {
    FollowThrough(t1, w, node, names[i].value, c, []);
    FirstCreated(t1, w, node, c, names, i, visited, readAt, c, join);
    forall j | 1 <= j < |visited|
      ensures CreatedAt(w, node, visited, readAt, j, 0, c, join)
    {
      ShiftCreated(w, node, c, visited, readAt, j, 0, 0, c, t1.nextId, join);
    }
  }

  /** The suite created for the name at index `i` itself. */
  lemma FirstCreated(t1: Tree, w: Tree, node: nat, c: nat, names: seq<Option<string>>, i: nat,
                     visited: seq<string>, readAt: seq<(seq<Option<string>>, nat)>, first: nat, join: JoinList)
    requires i < |names| && names[i].Some? && c == first
    requires 0 < |visited| == |readAt| && visited[0] == names[i].value && readAt[0] == (names, i)
    requires Ready(t1) && IsSuite(t1, node) && IsSuite(t1, c)
    requires t1.nodes[c] == NewNode(node, names[i].value, true, Some("suite"), Some(join(names, 0, i + 1, ".")))
    requires names[i].value in t1.nodes[node].body.lookup && t1.nodes[node].body.lookup[names[i].value] == c
    requires t1.log != [] && t1.log[|t1.log| - 1] == StartLineOf(t1.nodes[c], c)
    requires Ready(w) && LookupsGrow(t1, w) && HeadsKept(t1, w) && t1.log <= w.log
    ensures IsSuite(w, node)
    ensures CreatedAt(w, node, visited, readAt, 0, 0, first, join)
  {
    assert visited[..0] == [];
    assert IsSuite(w, node) && IsSuite(w, c);
    assert SameHead(t1.nodes[c], w.nodes[c]);
    assert StartLineOf(w.nodes[c], c) == StartLineOf(t1.nodes[c], c);
    assert w.log[|t1.log| - 1] == t1.log[|t1.log| - 1];
  }

  /** A created suite seen from the suite the walk started in rather than
      from the next one along. */
  lemma ShiftCreated(w: Tree, node: nat, next: nat, visited: seq<string>, readAt: seq<(seq<Option<string>>, nat)>,
                     j: nat, e: nat, e': nat, first: nat, first': nat, join: JoinList)
    requires Ready(w) && IsSuite(w, node) && IsSuite(w, next)
    requires 1 <= j && e <= j < |visited| == |readAt| && e' <= j - 1 && first + (j - e) == first' + (j - 1 - e')
    requires visited[0] in w.nodes[node].body.lookup && w.nodes[node].body.lookup[visited[0]] == next
    requires CreatedAt(w, next, visited[1..], readAt[1..], j - 1, e', first', join)
    ensures CreatedAt(w, node, visited, readAt, j, e, first, join)
  {
    var rest := visited[1..];
    assert visited[..j] == [visited[0]] + rest[..j - 1];
    assert visited[j] == rest[j - 1] && readAt[j] == readAt[1..][j - 1];
    FollowThrough(w, w, node, visited[0], next, rest[..j - 1]);
  }

  /** The suites the walk creates. It follows the registered part of the
      visited names (`e` of them) to an existing suite, where the next name is
      missing. Every later name is looked up in the suite created just before
      it, so it is missing too. The walk allocates exactly one id per missing
      name, in order: the id `t.nextId + (j - e)` goes to the `j`-th visited
      name, and is a started suite registered under that name. */
  lemma WalkCreatesMissing(t: Tree, node: nat, names: seq<Option<string>>, i: nat, len: nat, join: JoinList)
    requires Ready(t) && IsSuite(t, node)
    ensures var w := WalkSuites(t, node, names, i, len, join);
      var visited := PlanOf(names, i, len).visited;
      var e := Registered(t.nodes, node, visited);
      && Follow(t, node, visited[..e]).Some?
      && (e < |visited| ==> visited[e] !in t.nodes[Follow(t, node, visited[..e]).value].body.lookup)
      && (w.Walked? ==>
            && IsSuite(w.tree, node) && Follow(w.tree, node, visited[..e]) == Follow(t, node, visited[..e])
            && w.tree.nextId == t.nextId + (|visited| - e)
            && forall j :: e <= j < |visited| ==>
                 CreatedAt(w.tree, node, visited, ReadsOf(names, i, len), j, e, t.nextId, join))
  {
    var visited := PlanOf(names, i, len).visited;
    var e := Registered(t.nodes, node, visited);
    RegisteredFollows(t, node, visited);
    WalkCreatesSuites(t, node, names, i, len, join);
    WalkGrows(t, node, names, i, len, join);
    FollowGrows(t, WalkSuites(t, node, names, i, len, join).tree, node, visited[..e]);
  }

  // ---------------------------------------------------------------------
  // Chains without nulls

  lemma ValuesFrom(names: seq<Option<string>>, i: nat)
    requires NoNulls(names) && i < |names|
    ensures NoNulls(names[i..]) && NoNulls(names[i + 1..])
    ensures Values(names[i..]) == [names[i].value] + Values(names[i + 1..])
  {
    assert NoNulls(names[i..]) && NoNulls(names[i + 1..]);
    assert Values(names[i..]) == [names[i].value] + Values(names[i + 1..]);
  }

  /** Without nulls the loop visits every name in order, writes no
      diagnostic and leaves the array alone. */
  lemma {:induction false} PlanWithoutNulls(names: seq<Option<string>>, i: nat)
    requires NoNulls(names) && i <= |names|
    ensures NoNulls(names[i..])
    ensures PlanOf(names, i, |names|) == Plan(Values(names[i..]), 0, names)
    decreases |names| - i
  {
    assert NoNulls(names[i..]);
    if i == |names| {
      assert Values(names[i..]) == [];
    } else {
      PlanWithoutNulls(names, i + 1);
      ValuesFrom(names, i);
    }
  }

  /** A chain whose every name is already registered along the way is walked
      without any change to the tree. */
  lemma {:induction false} RegisteredChainUnchanged(t: Tree, node: nat, names: seq<Option<string>>, i: nat,
                                                    join: JoinList)
    requires Ready(t) && IsSuite(t, node) && NoNulls(names) && i <= |names|
    requires NoNulls(names[i..]) && Follow(t, node, Values(names[i..])).Some?
    ensures WalkSuites(t, node, names, i, |names|, join)
      == Walked(t, Follow(t, node, Values(names[i..])).value, names)
    decreases |names| - i
  {
    if i == |names| {
      assert Values(names[i..]) == [];
    } else {
      ValuesFrom(names, i);
      var path := Values(names[i..]);
      assert path[0] == names[i].value && path[1..] == Values(names[i + 1..]);
      var next := t.nodes[node].body.lookup[names[i].value];
      RegisteredChainUnchanged(t, next, names, i + 1, join);
    }
  }

  /** `getOrCreateLowerSuiteNode` is idempotent on a chain without nulls:
      the second walk finds the node the first one reached, and writes
      nothing. */
  lemma LowerSuiteNodeIdempotent(t: Tree, b: nat, names: seq<Option<string>>, join: JoinList)
    requires Ready(t) && IsSuite(t, b) && NoNulls(names)
    ensures var w := GetOrCreateLowerSuiteNode(t, b, names, join);
      w.Walked? ==> IsSuite(w.tree, b) && GetOrCreateLowerSuiteNode(w.tree, b, names, join) == Walked(w.tree, w.node, names)
  {
    var w := GetOrCreateLowerSuiteNode(t, b, names, join);
    WalkMatchesPlan(t, b, names, 0, |names|, join);
    WalkGrows(t, b, names, 0, |names|, join);
    PlanWithoutNulls(names, 0);
    assert names[0..] == names;
    if w.Walked? {
      RegisteredChainUnchanged(w.tree, b, names, 0, join);
    }
  }

  // ---------------------------------------------------------------------
  // A null inside the chain

  /** For the chain A, null, B the loop splices the null out, so B moves to
      index 1, which the loop has passed: only A is visited, and the read at
      index 2, past the shortened array, counts as a second null. */
  lemma NullInsideChain()
    ensures PlanOf([Some("A"), None, Some("B")], 0, 3) == Plan(["A"], 2, [Some("A"), Some("B")])
  {
    var names: seq<Option<string>> := [Some("A"), None, Some("B")];
    var spliced: seq<Option<string>> := [Some("A"), Some("B")];
    assert names[..1] + names[2..] == spliced;
    assert Splice(names, 1) == spliced;
    var tail := PlanOf(spliced, 2, 3);
    assert tail == Plan([], 1, spliced);
    assert PlanOf(names, 1, 3) == Plan([], 2, spliced);
    assert names[0].value == "A";
  }


  /** The walk of the chain A, null, B from a browser node: it ends at the
      suite reached by A alone, writes two diagnostic lines, and leaves the
      caller's array as A, B. */
  lemma NullInsideChainWalk(t: Tree, b: nat, join: JoinList)
    requires Ready(t) && IsSuite(t, b)
    ensures var w := GetOrCreateLowerSuiteNode(t, b, [Some("A"), None, Some("B")], join);
      w.Walked? ==>
        && w.names == [Some("A"), Some("B")]
        && IsSuite(w.tree, b) && Follow(w.tree, b, ["A"]) == Some(w.node)
        && Diagnostics(w.tree.log[|t.log|..]) == 2
  {
    WalkMatchesPlan(t, b, [Some("A"), None, Some("B")], 0, 3, join);
    WalkGrows(t, b, [Some("A"), None, Some("B")], 0, 3, join);
    NullInsideChain();
  }
}
