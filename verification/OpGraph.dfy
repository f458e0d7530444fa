/** A graph of operations: an append-only node list, a name index, and enumeration by position
    (tensorflow/c/c_api.cc; node ids as in tensorflow/core/graph/graph.h). */
module OpGraph {
  import opened Wrappers
  import GraphLifetime

  datatype Node = Node(id: nat, name: string) {
    predicate IsOp() {
      1 < id
    }
  }

  /** Slot i of the node list holds the node with id i, or nothing if that node was removed. */
  type Nodes = seq<Option<Node>>

  datatype GraphState = GraphState(nodes: Nodes, nameMap: map<string, Node>)

  const NEW_GRAPH := GraphState([Some(Node(0, "_SOURCE")), Some(Node(1, "_SINK"))], map[])

  datatype Finished = Created(node: Node) | DuplicateName | BuilderFailed

  /** Finishing an operation; builderOk is the verdict of the node builder, which on success appends
      one node at the next id and on failure changes nothing. */
  function Finish(g: GraphState, name: string, builderOk: bool): (GraphState, Finished) {
    if name in g.nameMap then (g, DuplicateName)
    else if !builderOk then (g, BuilderFailed)
    else
      var node := Node(|g.nodes|, name);
      (GraphState(g.nodes + [Some(node)], g.nameMap[name := node]), Created(node))
  }

  predicate IsOpAt(nodes: Nodes, i: nat)
    requires i < |nodes|
  {
    nodes[i].Some? && nodes[i].value.IsOp()
  }

  /** The operations with ids in [lo, hi), in id order. */
  function OpsIn(nodes: Nodes, lo: nat, hi: nat): (ops: seq<Node>)
    requires hi <= |nodes|
    decreases hi
  {
    if hi <= lo then []
    else OpsIn(nodes, lo, hi - 1) + (if IsOpAt(nodes, hi - 1) then [nodes[hi - 1].value] else [])
  }

  lemma {:induction false} OpsSplit(nodes: Nodes, lo: nat, mid: nat, hi: nat)
    requires lo <= mid <= hi <= |nodes|
    ensures OpsIn(nodes, lo, hi) == OpsIn(nodes, lo, mid) + OpsIn(nodes, mid, hi)
    decreases hi
  {
    if mid < hi {
      OpsSplit(nodes, lo, mid, hi - 1);
    }
  }

  /** Appending nodes does not change the operations below. */
  lemma {:induction false} OpsAppend(nodes: Nodes, more: Nodes, lo: nat, hi: nat)
    requires hi <= |nodes|
    ensures OpsIn(nodes + more, lo, hi) == OpsIn(nodes, lo, hi)
    decreases hi
  {
    if lo < hi {
      OpsAppend(nodes, more, lo, hi - 1);
    }
  }

  predicate SlotsById(nodes: Nodes) {
    2 <= |nodes| && forall i :: 0 <= i < |nodes| && nodes[i].Some? ==> nodes[i].value.id == i
  }

  /** The operations lie in [lo, hi), where their ids say, in increasing order. */
  predicate Located(nodes: Nodes, lo: nat, hi: nat, ops: seq<Node>)
    requires hi <= |nodes|
  {
    && (forall k :: 0 <= k < |ops| ==> lo <= ops[k].id < hi && nodes[ops[k].id] == Some(ops[k]))
    && (forall k, m :: 0 <= k < m < |ops| ==> ops[k].id < ops[m].id)
  }

  /** The operations of a stretch of the list have increasing ids, all inside the stretch, so none comes twice. */
  lemma {:induction false} OpsIncreasing(nodes: Nodes, lo: nat, hi: nat)
    requires hi <= |nodes| && SlotsById(nodes)
    ensures Located(nodes, lo, hi, OpsIn(nodes, lo, hi))
    decreases hi
  {
    if lo < hi {
      OpsIncreasing(nodes, lo, hi - 1);
      var prev := OpsIn(nodes, lo, hi - 1);
      if IsOpAt(nodes, hi - 1) {
        assert Located(nodes, lo, hi, prev + [nodes[hi - 1].value]);
      } else {
        assert OpsIn(nodes, lo, hi) == prev;
        assert Located(nodes, lo, hi, prev);
      }
    }
  }

  // ---- Enumeration ----

  /** The slots from start on hold no node before end. */
  predicate EmptyBetween(nodes: Nodes, start: nat, end: nat) {
    forall i :: start <= i < end && i < |nodes| ==> nodes[i].None?
  }

  function StartAfter(pos: nat): nat {
    if pos == 0 then 2 else pos + 1
  }

  /** What GraphNextOperation answers: the node in the next filled slot, or none past the end. */
  ghost predicate IsNext(nodes: Nodes, pos: nat, next: nat, op: Option<Node>) {
    && StartAfter(pos) <= next && EmptyBetween(nodes, StartAfter(pos), next)
    && (op.Some? ==> next < |nodes| && nodes[next] == op)
    && (op.None? ==> |nodes| <= next && (next == |nodes| || next == StartAfter(pos)))
  }

  lemma {:induction false} NoOpsInEmpty(nodes: Nodes, lo: nat, hi: nat)
    requires hi <= |nodes| && EmptyBetween(nodes, lo, hi)
    ensures OpsIn(nodes, lo, hi) == []
    decreases hi
  {
    if lo < hi {
      NoOpsInEmpty(nodes, lo, hi - 1);
    }
  }

  /** One answer of the enumeration extends the operations seen so far by exactly the one returned. */
  lemma NextExtends(nodes: Nodes, pos: nat, next: nat, op: Option<Node>)
    requires SlotsById(nodes) && IsNext(nodes, pos, next, op) && StartAfter(pos) <= |nodes|
    ensures op.Some? ==> OpsIn(nodes, 2, next + 1) == OpsIn(nodes, 2, StartAfter(pos)) + [op.value]
    ensures op.None? ==> OpsIn(nodes, 2, |nodes|) == OpsIn(nodes, 2, StartAfter(pos))
  {
    var start := StartAfter(pos);
    var end := if op.Some? then next else |nodes|;
    NoOpsInEmpty(nodes, start, end);
    OpsSplit(nodes, 2, start, end);
  }

  class Graph {
    var nodes: Nodes
    var nameMap: map<string, Node>
    var numSessions: int
    var deleteRequested: bool

    function State(): GraphState
      reads this
    {
      GraphState(nodes, nameMap)
    }

    /** The part that decides when the graph is freed. */
    function Life(): GraphLifetime.Life
      reads this
    {
      GraphLifetime.Life(numSessions, deleteRequested)
    }

    constructor ()
      ensures State() == NEW_GRAPH && numSessions == 0 && !deleteRequested
    {
      nodes, nameMap := NEW_GRAPH.nodes, NEW_GRAPH.nameMap;
      numSessions, deleteRequested := 0, false;
    }

    method FinishOperation(name: string, builderOk: bool) returns (r: Finished)
      modifies this`nodes, this`nameMap
      ensures (State(), r) == Finish(old(State()), name, builderOk)
    {
      if name in nameMap {
        r := DuplicateName;
      } else if builderOk {
        var node := Node(|nodes|, name);
        nodes := nodes + [Some(node)];
        nameMap := nameMap[node.name := node];
        r := Created(node);
      } else {
        r := BuilderFailed;
      }
    }

    method OperationByName(name: string) returns (op: Option<Node>)
      ensures op == if name in nameMap then Some(nameMap[name]) else None
    {
      if name !in nameMap {
        return None;
      }
      return Some(nameMap[name]);
    }

    /** next is the caller's position cursor after the call. */
    method NextOperation(pos: nat) returns (next: nat, op: Option<Node>)
      ensures IsNext(nodes, pos, next, op)
    {
      next := if pos == 0 then pos + 2 else pos + 1;
      while next < |nodes|
        invariant StartAfter(pos) <= next && EmptyBetween(nodes, StartAfter(pos), next)
        invariant next <= |nodes| || next == StartAfter(pos)
      {
        if nodes[next].Some? {
          return next, nodes[next];
        }
        next := next + 1;
      }
      op := None;
    }

    /** The client's loop: from position 0 until there are no more nodes. */
    method Enumerate() returns (visited: seq<Node>)
      requires SlotsById(nodes)
      ensures visited == OpsIn(nodes, 2, |nodes|)
    {
      visited := [];
      var pos, op := NextOperation(0);
      NextExtends(nodes, 0, pos, op);
      while op.Some?
        invariant op.Some? ==> pos < |nodes| && 2 <= pos && nodes[pos] == op
        invariant op.Some? ==> visited + [op.value] == OpsIn(nodes, 2, pos + 1)
        invariant op.None? ==> visited == OpsIn(nodes, 2, |nodes|)
        decreases op.Some?, |nodes| - pos
      {
        visited := visited + [op.value];
        ghost var before := pos;
        pos, op := NextOperation(pos);
        NextExtends(nodes, before, pos, op);
      }
    }

    /** The critical section of deleting the graph; del tells the caller to free it, which is so exactly
        if the graph must go from then on. */
    method RequestDelete() returns (del: bool)
      modifies this`deleteRequested
      ensures (Life(), del) == GraphLifetime.Requested(old(Life()))
      ensures del <==> GraphLifetime.Over(Life())
    {
      deleteRequested := true;
      del := numSessions == 0;
    }

    method AddSession()
      modifies this`numSessions
      ensures Life() == GraphLifetime.Counted(old(Life()))
    {
      numSessions := numSessions + 1;
    }

    /** The critical section of deleting a session, and its verdict. */
    method DropSession() returns (del: bool)
      modifies this`numSessions
      ensures (Life(), del) == GraphLifetime.Dropped(old(Life()))
      ensures del <==> GraphLifetime.Over(Life())
    {
      numSessions := numSessions - 1;
      del := deleteRequested && numSessions == 0;
    }
  }

  // ---- Reachable graphs ----

  /** The name index and the node list agree: every slot is filled by the node with that id, every
      operation is indexed under its name, and the index holds nothing else. */
  ghost predicate Valid(g: GraphState) {
    && SlotsById(g.nodes) && (forall i :: 0 <= i < |g.nodes| ==> g.nodes[i].Some?)
    && (forall i :: 2 <= i < |g.nodes| ==> g.nodes[i].value.name in g.nameMap && g.nameMap[g.nodes[i].value.name].id == i)
    && (forall name :: name in g.nameMap ==>
          var n := g.nameMap[name]; 2 <= n.id < |g.nodes| && g.nodes[n.id] == Some(n) && n.name == name)
  }

  lemma FinishKeepsValid(g: GraphState, name: string, builderOk: bool)
    requires Valid(g)
    ensures Valid(Finish(g, name, builderOk).0)
    ensures Finish(g, name, builderOk).1.Created? <==> name !in g.nameMap && builderOk
    ensures !Finish(g, name, builderOk).1.Created? ==> Finish(g, name, builderOk).0 == g
    ensures exists more :: Finish(g, name, builderOk).0.nodes == g.nodes + more
    ensures name in g.nameMap <==> Finish(g, name, builderOk).1.DuplicateName?
    ensures Finish(g, name, builderOk).1.Created? ==>
      var (g', r) := Finish(g, name, builderOk);
      r.node.name == name && r.node.id == |g.nodes| && g'.nodes == g.nodes + [Some(r.node)] && g'.nameMap == g.nameMap[name := r.node]
  {
    var g' := Finish(g, name, builderOk).0;
    assert g'.nodes == g.nodes + (if g' == g then [] else [Some(Node(|g.nodes|, name))]);
  }

  /** Without removed nodes, position k of an enumeration is the node with id k + 2. */
  lemma {:induction false} OpsConsecutive(g: GraphState, hi: nat)
    requires Valid(g) && 2 <= hi <= |g.nodes|
    ensures var ops := OpsIn(g.nodes, 2, hi);
      |ops| == hi - 2 && forall k :: 0 <= k < |ops| ==> Some(ops[k]) == g.nodes[k + 2] && ops[k].id == k + 2
    decreases hi
  {
    if 2 < hi {
      OpsConsecutive(g, hi - 1);
    }
  }

  /** The same for a stretch from slot 0: the source and sink nodes are no operations. */
  lemma OpsFromZero(g: GraphState, n: nat)
    requires Valid(g) && n <= |g.nodes|
    ensures var ops := OpsIn(g.nodes, 0, n);
      && |ops| == (if n < 2 then 0 else n - 2)
      && forall k :: 0 <= k < |ops| ==> ops[k].id == k + 2 && g.nodes[k + 2] == Some(ops[k])
  {
    assert OpsIn(g.nodes, 0, 1) == OpsIn(g.nodes, 0, 0) == [];
    assert OpsIn(g.nodes, 0, 2) == [];
    if 2 <= n {
      OpsSplit(g.nodes, 0, 2, n);
      OpsConsecutive(g, n);
    }
  }

  /** The index finds a name exactly when the enumeration visits an operation of that name, and then
      it finds that operation; no two visited operations share a name. */
  lemma LookupAgreesWithEnumeration(g: GraphState, name: string)
    requires Valid(g)
    ensures var ops := OpsIn(g.nodes, 2, |g.nodes|);
      && (name in g.nameMap <==> exists k :: 0 <= k < |ops| && ops[k].name == name)
      && (forall k :: 0 <= k < |ops| && ops[k].name == name ==> name in g.nameMap && g.nameMap[name] == ops[k])
      && (forall k, m :: 0 <= k < m < |ops| ==> ops[k].name != ops[m].name)
  {
    var ops := OpsIn(g.nodes, 2, |g.nodes|);
    OpsConsecutive(g, |g.nodes|);
    if name in g.nameMap {
      assert ops[g.nameMap[name].id - 2] == g.nameMap[name];
    }
    forall k | 0 <= k < |ops|
      ensures ops[k].name in g.nameMap && g.nameMap[ops[k].name] == ops[k]
    {
      assert g.nodes[k + 2].value == ops[k];
    }
  }

  // ---- Enumerating while others add operations ----

  /** One client enumerates while operations are finished between its calls: its cursor, what it has
      seen, and the cursor positions at which it was told that there are no more nodes. */
  datatype Walk = Walk(g: GraphState, pos: nat, visited: seq<Node>, ends: set<nat>)

  datatype Event = Added(name: string, builderOk: bool) | Advanced(next: nat, op: Option<Node>)

  ghost predicate CanHappen(w: Walk, e: Event) {
    e.Advanced? ==> IsNext(w.g.nodes, w.pos, e.next, e.op)
  }

  function After(w: Walk, e: Event): Walk {
    match e
    case Added(name, ok) => w.(g := Finish(w.g, name, ok).0)
    case Advanced(next, op) =>
      if op.Some? then w.(pos := next, visited := w.visited + [op.value]) else w.(pos := next, ends := w.ends + {next})
  }

  ghost predicate Happens(w: Walk, events: seq<Event>)
    decreases |events|
  {
    events == [] || (CanHappen(w, events[0]) && Happens(After(w, events[0]), events[1..]))
  }

  function Outcome(w: Walk, events: seq<Event>): Walk
    decreases |events|
  {
    if events == [] then w else Outcome(After(w, events[0]), events[1..])
  }

  predicate Visited(w: Walk, id: nat) {
    exists k :: 0 <= k < |w.visited| && w.visited[k].id == id
  }

  /** What was visited are operations below the cursor, each once, in id order. */
  ghost predicate VisitedInOrder(w: Walk) {
    && (forall k :: 0 <= k < |w.visited| ==> 2 <= w.visited[k].id < StartAfter(w.pos) && w.visited[k].id < |w.g.nodes|)
    && (forall k :: 0 <= k < |w.visited| ==> w.g.nodes[w.visited[k].id] == Some(w.visited[k]))
    && (forall k, m :: 0 <= k < m < |w.visited| ==> w.visited[k].id < w.visited[m].id)
  }

  /** Below the cursor exactly the ids at which an end was reported were passed over. */
  ghost predicate EndsPassedOver(w: Walk) {
    && (forall id :: id in w.ends ==> 2 <= id < StartAfter(w.pos))
    && (forall id :: 2 <= id < StartAfter(w.pos) ==> (Visited(w, id) <==> id !in w.ends))
  }

  ghost predicate WalkInv(w: Walk) {
    Valid(w.g) && VisitedInOrder(w) && EndsPassedOver(w)
  }

  /** Without removed nodes the cursor moves by one place only. */
  lemma NextIsAdjacent(g: GraphState, pos: nat, next: nat, op: Option<Node>)
    requires Valid(g) && IsNext(g.nodes, pos, next, op)
    ensures next == StartAfter(pos) && (op.Some? <==> next < |g.nodes|)
  {
    assert StartAfter(pos) < |g.nodes| ==> g.nodes[StartAfter(pos)].Some?;
  }

  lemma WalkStep(w: Walk, e: Event)
    requires WalkInv(w) && CanHappen(w, e)
    ensures WalkInv(After(w, e))
  {
    match e
    case Added(name, ok) =>
      FinishKeepsValid(w.g, name, ok);
      assert forall id :: Visited(w, id) <==> Visited(After(w, e), id);
    case Advanced(next, op) =>
      NextIsAdjacent(w.g, w.pos, next, op);
      WalkAdvances(w, next, op);
  }

  lemma WalkAdvances(w: Walk, next: nat, op: Option<Node>)
    requires WalkInv(w) && next == StartAfter(w.pos) && (op.Some? ==> next < |w.g.nodes| && w.g.nodes[next] == op)
    ensures WalkInv(After(w, Advanced(next, op)))
  {
    VisitedGrows(w, After(w, Advanced(next, op)), next, op);
  }

  lemma VisitedGrows(w: Walk, w': Walk, next: nat, op: Option<Node>)
    requires w'.visited == w.visited + (if op.Some? then [op.value] else []) && (op.Some? ==> op.value.id == next)
    ensures forall id :: Visited(w', id) <==> Visited(w, id) || (op.Some? && id == next)
  {
    forall id
      ensures Visited(w', id) <==> Visited(w, id) || (op.Some? && id == next)
    {
      if Visited(w, id) {
        var k :| 0 <= k < |w.visited| && w.visited[k].id == id;
        assert w'.visited[k].id == id;
      } else if op.Some? && id == next {
        assert w'.visited[|w.visited|].id == id;
      }
    }
  }

  lemma {:induction false} WalkInvAlways(w: Walk, events: seq<Event>)
    requires WalkInv(w) && Happens(w, events)
    ensures WalkInv(Outcome(w, events))
    decreases |events|
  {
    if events != [] {
      WalkStep(w, events[0]);
      WalkInvAlways(After(w, events[0]), events[1..]);
    }
  }

  const NEW_WALK := Walk(NEW_GRAPH, 0, [], {})

  lemma NewWalk()
    ensures WalkInv(NEW_WALK) && Valid(NEW_GRAPH)
  {
  }

  /** However operations are added between the calls of an enumeration, and however often it goes on
      after it was told that there are no more nodes: it visits operations in id order, none twice, and of
      those its cursor has passed it misses exactly the ones created later at an id where an end was reported. */
  lemma EnumerationMissesExactly(events: seq<Event>, id: nat)
    requires Happens(NEW_WALK, events)
    ensures var f := Outcome(NEW_WALK, events);
      && (forall k, m :: 0 <= k < m < |f.visited| ==> f.visited[k].id < f.visited[m].id)
      && (2 <= id < StartAfter(f.pos) && id < |f.g.nodes| ==> (Visited(f, id) <==> id !in f.ends))
  {
    NewWalk();
    WalkInvAlways(NEW_WALK, events);
  }

  /** Up to the first such answer it has missed nothing: it has visited the operations 2, 3, 4 and so on up
      to its cursor, and the next answer is that there are no more only when these are all there are. */
  lemma EnumerationIsComplete(events: seq<Event>, next: nat, op: Option<Node>)
    requires Happens(NEW_WALK, events) && Outcome(NEW_WALK, events).ends == {}
    requires IsNext(Outcome(NEW_WALK, events).g.nodes, Outcome(NEW_WALK, events).pos, next, op)
    ensures var f := Outcome(NEW_WALK, events);
      && (forall id: nat :: 2 <= id < StartAfter(f.pos) <==> Visited(f, id))
      && (forall k, m :: 0 <= k < m < |f.visited| ==> f.visited[k].id < f.visited[m].id)
      && (op.None? ==> forall id :: 2 <= id < |f.g.nodes| ==> Visited(f, id))
  {
    NewWalk();
    WalkInvAlways(NEW_WALK, events);
    var f := Outcome(NEW_WALK, events);
    NextIsAdjacent(f.g, f.pos, next, op);
  }

  /** An enumeration is told that a graph is empty, an operation is created, and the enumeration goes on:
      it is told again that there are no more nodes. */
  lemma GoingOnMisses()
    ensures var events := [Advanced(2, None), Added("a", true), Advanced(3, None)];
      Happens(NEW_WALK, events) &&
      var f := Outcome(NEW_WALK, events);
      |f.g.nodes| == 3 && f.visited == [] && f.ends == {2, 3}
  {
    var e1, e2, e3 := Advanced(2, None), Added("a", true), Advanced(3, None);
    var w1 := After(NEW_WALK, e1);
    var w2 := After(w1, e2);
    var w3 := After(w2, e3);
    assert [e1, e2, e3][1..] == [e2, e3] && [e2, e3][1..] == [e3] && [e3][1..] == [];
    assert Happens(w3, []) && Happens(w2, [e3]) && Happens(w1, [e2, e3]);
    assert Outcome(w2, [e3]) == w3 && Outcome(w1, [e2, e3]) == w3;
  }
}
