/** Sending a shared graph to sessions incrementally: before each run a session is extended with the
    nodes added since its last successful extension (tensorflow/c/c_api.cc). */
module SessionExtension {
  import opened Wrappers
  import opened OpGraph

  type Tid = nat
  type Sid = nat

  // ---- The helper, as one thread executes it ----

  class Session {
    var lastNumGraphNodes: nat
    /** The batches that the underlying session accepted. */
    ghost var sent: seq<Node>

    constructor ()
      ensures lastNumGraphNodes == 0 && sent == []
    {
      lastNumGraphNodes := 0;
      sent := [];
    }

    ghost predicate InStep(nodes: Nodes)
      reads this
    {
      lastNumGraphNodes <= |nodes| && sent == OpsIn(nodes, 0, lastNumGraphNodes)
    }

    /** The node definitions of the slots [lastNumGraphNodes, |nodes|) that hold operations. */
    method CollectBatch(nodes: Nodes) returns (batch: seq<Node>)
      requires lastNumGraphNodes <= |nodes|
      ensures batch == OpsIn(nodes, lastNumGraphNodes, |nodes|)
    {
      batch := [];
      for id := lastNumGraphNodes to |nodes|
        invariant batch == OpsIn(nodes, lastNumGraphNodes, id)
      {
        if nodes[id].Some? && nodes[id].value.IsOp() {
          batch := batch + [nodes[id].value];
        }
      }
    }

    /** Extends the session to the graph's present nodes; accepted is the underlying session's answer,
        which is not modified if it refuses. */
    method ExtendGraph(nodes: Nodes, accepted: bool) returns (ok: bool)
      requires InStep(nodes)
      modifies this
      ensures InStep(nodes)
      ensures ok ==> lastNumGraphNodes == |nodes| && sent == OpsIn(nodes, 0, |nodes|)
      ensures !ok ==> !accepted && old(lastNumGraphNodes) < |nodes| && lastNumGraphNodes == old(lastNumGraphNodes)
    {
      if lastNumGraphNodes < |nodes| {
        var batch := CollectBatch(nodes);
        if !accepted {
          return false;
        }
        OpsSplit(nodes, 0, lastNumGraphNodes, |nodes|);
        sent := sent + batch;
        lastNumGraphNodes := |nodes|;
      }
      return true;
    }
  }

  // ---- Threads interleaved ----

  /** Where a thread stands in the helper. seen is a history variable: the size of the node list when it
      made the call. Between Sending and the answer the graph's lock is free but the session's is held. */
  datatype Pc =
    | Idle
    | Called(sid: Sid, seen: nat)
    | Locked(sid: Sid, seen: nat)
    | Sending(sid: Sid, seen: nat, upto: nat, batch: seq<Node>)
    | Returned(sid: Sid, seen: nat, ok: bool)

  /** What the shared state says of a session; batches lists the ones that were accepted. */
  datatype SessionState = SessionState(last: nat, holder: Option<Tid>, batches: seq<seq<Node>>)

  datatype State = State(graph: GraphState, sessions: map<Sid, SessionState>, threads: map<Tid, Pc>) {
    function Go(t: Tid, pc: Pc): State {
      this.(threads := threads[t := pc])
    }

    function Put(sid: Sid, session: SessionState): State {
      this.(sessions := sessions[sid := session])
    }
  }

  datatype Step =
    | AddOperation(name: string, builderOk: bool)
    | AddSession(sid: Sid)
    | Call(t: Tid, sid: Sid)
    | LockSession(t: Tid)
    | Collect(t: Tid)
    | Answer(t: Tid, accepted: bool)
    | Leave(t: Tid)

  predicate Enabled(s: State, step: Step) {
    match step
    case AddOperation(_, _) => true
    case AddSession(sid) => sid !in s.sessions
    case Call(t, sid) => t in s.threads && s.threads[t].Idle? && sid in s.sessions
    case LockSession(t) =>
      t in s.threads && s.threads[t].Called? && s.threads[t].sid in s.sessions && s.sessions[s.threads[t].sid].holder.None?
    case Collect(t) => t in s.threads && s.threads[t].Locked? && s.threads[t].sid in s.sessions
    case Answer(t, _) => t in s.threads && s.threads[t].Sending? && s.threads[t].sid in s.sessions
    case Leave(t) => t in s.threads && s.threads[t].Returned?
  }

  function Apply(s: State, step: Step): State
    requires Enabled(s, step)
  {
    match step
    case AddOperation(name, ok) => s.(graph := Finish(s.graph, name, ok).0)
    case AddSession(sid) => s.Put(sid, SessionState(0, None, []))
    case Call(t, sid) => s.Go(t, Called(sid, |s.graph.nodes|))
    case LockSession(t) =>
      var pc := s.threads[t];
      s.Go(t, Locked(pc.sid, pc.seen)).Put(pc.sid, s.sessions[pc.sid].(holder := Some(t)))
    case Collect(t) =>
      var pc, n := s.threads[t], |s.graph.nodes|;
      var session := s.sessions[pc.sid];
      if session.last < n then s.Go(t, Sending(pc.sid, pc.seen, n, OpsIn(s.graph.nodes, session.last, n)))
      else s.Go(t, Returned(pc.sid, pc.seen, true)).Put(pc.sid, session.(holder := None))
    case Answer(t, accepted) =>
      var pc := s.threads[t];
      var session := s.sessions[pc.sid].(holder := None);
      s.Go(t, Returned(pc.sid, pc.seen, accepted))
       .Put(pc.sid, if accepted then session.(last := pc.upto, batches := session.batches + [pc.batch]) else session)
    case Leave(t) => s.Go(t, Idle)
  }

  predicate IsRun(s: State, steps: seq<Step>)
    decreases |steps|
  {
    steps == [] || (Enabled(s, steps[0]) && IsRun(Apply(s, steps[0]), steps[1..]))
  }

  function Final(s: State, steps: seq<Step>): State
    requires IsRun(s, steps)
    decreases |steps|
  {
    if steps == [] then s else Final(Apply(s, steps[0]), steps[1..])
  }

  predicate Initial(s: State) {
    s.graph == NEW_GRAPH && s.sessions == map[] && forall t :: t in s.threads ==> s.threads[t].Idle?
  }

  function Flatten(batches: seq<seq<Node>>): seq<Node> {
    if batches == [] then [] else Flatten(batches[..|batches| - 1]) + batches[|batches| - 1]
  }

  // ---- The invariant ----

  /** A session has been sent exactly the operations with ids below its mark. */
  ghost predicate SentInv(s: State) {
    forall sid :: sid in s.sessions ==>
      && s.sessions[sid].last <= |s.graph.nodes|
      && Flatten(s.sessions[sid].batches) == OpsIn(s.graph.nodes, 0, s.sessions[sid].last)
  }

  predicate Holds(pc: Pc, sid: Sid) {
    (pc.Locked? || pc.Sending?) && pc.sid == sid
  }

  /** A session's lock is held by the one thread that extends it. */
  ghost predicate LockInv(s: State) {
    && (forall t :: t in s.threads && !s.threads[t].Idle? ==> s.threads[t].sid in s.sessions)
    && (forall t, sid :: t in s.threads && sid in s.sessions ==>
          (Holds(s.threads[t], sid) <==> s.sessions[sid].holder == Some(t)))
  }

  /** A batch under way continues exactly where its session stands, and reaches at least as far as the
      graph did when the call was made; a call that returned true left the session that far. */
  ghost predicate ProgressInv(s: State) {
    forall t :: t in s.threads ==> ThreadOk(s, s.threads[t])
  }

  ghost predicate ThreadOk(s: State, pc: Pc) {
    match pc
    case Idle => true
    case Called(sid, seen) => seen <= |s.graph.nodes|
    case Locked(sid, seen) => seen <= |s.graph.nodes|
    case Sending(sid, seen, upto, batch) =>
      && sid in s.sessions && seen <= upto <= |s.graph.nodes| && s.sessions[sid].last <= upto
      && batch == OpsIn(s.graph.nodes, s.sessions[sid].last, upto)
    case Returned(sid, seen, ok) => sid in s.sessions && (ok ==> seen <= s.sessions[sid].last)
  }

  ghost predicate Inv(s: State) {
    Valid(s.graph) && SentInv(s) && LockInv(s) && ProgressInv(s)
  }

  lemma InitialInv(s: State)
    requires Initial(s)
    ensures Inv(s)
  {
    NewWalk();
  }

  lemma AddOperationKeeps(s: State, name: string, ok: bool)
    requires Inv(s)
    ensures Inv(Apply(s, AddOperation(name, ok)))
  {
    var s' := Apply(s, AddOperation(name, ok));
    FinishKeepsValid(s.graph, name, ok);
    var more :| s'.graph.nodes == s.graph.nodes + more;
    forall sid | sid in s.sessions
      ensures Flatten(s.sessions[sid].batches) == OpsIn(s'.graph.nodes, 0, s.sessions[sid].last)
    {
      OpsAppend(s.graph.nodes, more, 0, s.sessions[sid].last);
    }
    forall t | t in s.threads
      ensures ThreadOk(s', s.threads[t])
    {
      assert ThreadOk(s, s.threads[t]);
      if s.threads[t].Sending? {
        OpsAppend(s.graph.nodes, more, s.sessions[s.threads[t].sid].last, s.threads[t].upto);
      }
    }
  }

  lemma LockKept(s: State, step: Step)
    requires LockInv(s) && Enabled(s, step)
    ensures LockInv(Apply(s, step))
  {
    match step
    case AddOperation(_, _) =>
    case AddSession(sid) =>
    case Call(t, sid) =>
    case LockSession(t) => LockTaken(s, t);
    case Collect(t) =>
    case Answer(t, accepted) => LockReleased(s, t, accepted);
    case Leave(t) =>
  }

  lemma LockTaken(s: State, t: Tid)
    requires LockInv(s) && Enabled(s, LockSession(t))
    ensures LockInv(Apply(s, LockSession(t)))
  {
  }

  lemma LockReleased(s: State, t: Tid, accepted: bool)
    requires LockInv(s) && Enabled(s, Answer(t, accepted))
    ensures LockInv(Apply(s, Answer(t, accepted)))
  {
  }

  /** Accepting a batch advances the mark by exactly what was sent. */
  lemma SentKept(s: State, step: Step)
    requires Inv(s) && Enabled(s, step) && !step.AddOperation?
    ensures SentInv(Apply(s, step))
  {
    if step.Answer? && step.accepted {
      var pc := s.threads[step.t];
      var session := s.sessions[pc.sid];
      assert ThreadOk(s, pc);
      OpsSplit(s.graph.nodes, 0, session.last, pc.upto);
      assert (session.batches + [pc.batch])[..|session.batches|] == session.batches;
    }
  }

  lemma ProgressKept(s: State, step: Step)
    requires Inv(s) && Enabled(s, step) && !step.AddOperation?
    ensures ProgressInv(Apply(s, step))
  {
    var s' := Apply(s, step);
    forall t | t in s'.threads
      ensures ThreadOk(s', s'.threads[t])
    {
      assert t in s.threads && ThreadOk(s, s.threads[t]);
      OtherThreadOk(s, step, t);
    }
  }

  /** The thread that takes a step is in order afterwards. */
  lemma OwnThreadOk(s: State, step: Step, t: Tid)
    requires Inv(s) && Enabled(s, step) && !step.AddOperation? && !step.AddSession? && t == step.t && ThreadOk(s, s.threads[t])
    ensures ThreadOk(Apply(s, step), Apply(s, step).threads[t])
  {
  }

  /** A thread stays in order while the graph and its session's mark stay. */
  lemma StaysOk(s: State, s': State, pc: Pc)
    requires ThreadOk(s, pc) && s'.graph == s.graph
    requires !pc.Idle? && pc.sid in s.sessions ==> pc.sid in s'.sessions && s'.sessions[pc.sid].last == s.sessions[pc.sid].last
    requires !pc.Idle? ==> pc.sid in s.sessions
    ensures ThreadOk(s', pc)
  {
  }

  /** Nobody else is sending to the session whose batch is answered. */
  lemma OthersOkAfterAnswer(s: State, u: Tid, accepted: bool, t: Tid)
    requires Inv(s) && Enabled(s, Answer(u, accepted)) && t in s.threads && t != u && ThreadOk(s, s.threads[t])
    ensures ThreadOk(Apply(s, Answer(u, accepted)), s.threads[t])
  {
    assert ThreadOk(s, s.threads[u]) && Holds(s.threads[u], s.threads[u].sid);
    if s.threads[t].Sending? {
      assert Holds(s.threads[t], s.threads[t].sid);
    }
  }

  lemma OtherThreadOk(s: State, step: Step, t: Tid)
    requires Inv(s) && Enabled(s, step) && !step.AddOperation?
    requires t in s.threads && ThreadOk(s, s.threads[t])
    ensures ThreadOk(Apply(s, step), Apply(s, step).threads[t])
  {
    if !step.AddSession? && t == step.t {
      OwnThreadOk(s, step, t);
    } else if step.Answer? {
      OthersOkAfterAnswer(s, step.t, step.accepted, t);
    } else {
      StaysOk(s, Apply(s, step), s.threads[t]);
    }
  }

  lemma InvKept(s: State, step: Step)
    requires Inv(s) && Enabled(s, step)
    ensures Inv(Apply(s, step))
  {
    if step.AddOperation? {
      AddOperationKeeps(s, step.name, step.builderOk);
    } else {
      LockKept(s, step);
      SentKept(s, step);
      ProgressKept(s, step);
    }
  }

  lemma {:induction false} InvAlways(s: State, steps: seq<Step>)
    requires Inv(s) && IsRun(s, steps)
    ensures Inv(Final(s, steps))
    decreases |steps|
  {
    if steps != [] {
      InvKept(s, steps[0]);
      InvAlways(Apply(s, steps[0]), steps[1..]);
    }
  }

  // ---- What every interleaving guarantees ----

  /** Whatever threads add operations, extend sessions and get batches refused, the batches a session
      accepted are, put together, exactly the operations with ids below its mark, in id order, each once. */
  lemma SentExactlyOnceInOrder(s: State, steps: seq<Step>, sid: Sid)
    requires Initial(s) && IsRun(s, steps) && sid in Final(s, steps).sessions
    ensures var f := Final(s, steps); var sent := Flatten(f.sessions[sid].batches);
      && f.sessions[sid].last <= |f.graph.nodes|
      && |sent| == (if f.sessions[sid].last < 2 then 0 else f.sessions[sid].last - 2)
      && forall k :: 0 <= k < |sent| ==> sent[k].id == k + 2 && f.graph.nodes[k + 2] == Some(sent[k])
  {
    InitialInv(s);
    InvAlways(s, steps);
    var f := Final(s, steps);
    OpsFromZero(f.graph, f.sessions[sid].last);
  }

  /** When the helper returns true, every operation that was finished before the call has been sent. */
  lemma TrueMeansSent(s: State, steps: seq<Step>, t: Tid, id: nat)
    requires Initial(s) && IsRun(s, steps)
    requires t in Final(s, steps).threads
    requires var pc := Final(s, steps).threads[t]; pc.Returned? && pc.ok && 2 <= id < pc.seen
    ensures var f := Final(s, steps);
      && f.threads[t].sid in f.sessions && id < |f.graph.nodes| && f.graph.nodes[id].Some?
      && f.graph.nodes[id].value in Flatten(f.sessions[f.threads[t].sid].batches)
  {
    InitialInv(s);
    InvAlways(s, steps);
    var f := Final(s, steps);
    assert ThreadOk(f, f.threads[t]);
    SentExactlyOnceInOrder(s, steps, f.threads[t].sid);
    var sent := Flatten(f.sessions[f.threads[t].sid].batches);
    assert f.graph.nodes[id] == Some(sent[id - 2]);
  }

  /** A refused batch leaves the session as it was. */
  lemma RefusalChangesNothing(s: State, t: Tid)
    requires Inv(s) && Enabled(s, Answer(t, false))
    ensures var sid := s.threads[t].sid; var s' := Apply(s, Answer(t, false));
      s'.sessions[sid].last == s.sessions[sid].last && s'.sessions[sid].batches == s.sessions[sid].batches
      && OpsIn(s'.graph.nodes, s'.sessions[sid].last, s.threads[t].upto) == s.threads[t].batch
  {
    assert ThreadOk(s, s.threads[t]);
  }

  /** The graph has grown from nodes, and whatever is being sent to session sid reaches beyond upto. */
  ghost predicate Reaches(s: State, sid: Sid, upto: nat, nodes: Nodes) {
    && upto <= |nodes| && nodes <= s.graph.nodes
    && forall t :: t in s.threads && s.threads[t].Sending? && s.threads[t].sid == sid ==> upto <= s.threads[t].upto
  }

  lemma ReachesKept(s: State, step: Step, sid: Sid, upto: nat, nodes: Nodes)
    requires Valid(s.graph) && Enabled(s, step) && Reaches(s, sid, upto, nodes)
    ensures Reaches(Apply(s, step), sid, upto, nodes)
  {
    if step.AddOperation? {
      FinishKeepsValid(s.graph, step.name, step.builderOk);
    }
  }

  lemma {:induction false} ReachesAlways(s: State, steps: seq<Step>, sid: Sid, upto: nat, nodes: Nodes)
    requires Inv(s) && IsRun(s, steps) && Reaches(s, sid, upto, nodes)
    ensures Reaches(Final(s, steps), sid, upto, nodes)
    decreases |steps|
  {
    if steps != [] {
      ReachesKept(s, steps[0], sid, upto, nodes);
      InvKept(s, steps[0]);
      ReachesAlways(Apply(s, steps[0]), steps[1..], sid, upto, nodes);
    }
  }

  /** Whatever happens after a refusal: as long as nothing else was accepted, the batch that is being sent to
      the session begins with the refused one. */
  lemma RefusedIsSentAgain(s: State, t: Tid, steps: seq<Step>, u: Tid)
    requires Inv(s) && Enabled(s, Answer(t, false)) && IsRun(Apply(s, Answer(t, false)), steps)
    requires var f, sid := Final(Apply(s, Answer(t, false)), steps), s.threads[t].sid;
      && u in f.threads && f.threads[u].Sending? && f.threads[u].sid == sid
      && sid in f.sessions && f.sessions[sid].last == s.sessions[sid].last
    ensures s.threads[t].batch <= Final(Apply(s, Answer(t, false)), steps).threads[u].batch
  {
    var s', sid, upto, last := Apply(s, Answer(t, false)), s.threads[t].sid, s.threads[t].upto, s.sessions[s.threads[t].sid].last;
    assert ThreadOk(s, s.threads[t]);
    NobodyElseSends(s, t);
    InvKept(s, Answer(t, false));
    InvAlways(s', steps);
    ReachesAlways(s', steps, sid, upto, s.graph.nodes);
    SentBeginsWith(s.graph.nodes, Final(s', steps), u, last, upto);
  }

  lemma NobodyElseSends(s: State, t: Tid)
    requires LockInv(s) && Enabled(s, Answer(t, false))
    ensures var s' := Apply(s, Answer(t, false));
      forall v :: v in s'.threads && s'.threads[v].Sending? ==> s'.threads[v].sid != s.threads[t].sid
  {
    assert Holds(s.threads[t], s.threads[t].sid);
    assert forall v :: v in s.threads && s.threads[v].Sending? ==> Holds(s.threads[v], s.threads[v].sid);
  }

  lemma SentBeginsWith(nodes: Nodes, f: State, u: Tid, last: nat, upto: nat)
    requires Inv(f) && u in f.threads && f.threads[u].Sending? && Reaches(f, f.threads[u].sid, upto, nodes) && last <= upto
    requires f.threads[u].sid in f.sessions && f.sessions[f.threads[u].sid].last == last
    ensures OpsIn(nodes, last, upto) <= f.threads[u].batch
  {
    var all := f.graph.nodes;
    assert ThreadOk(f, f.threads[u]);
    assert all == nodes + all[|nodes|..];
    OpsAppend(nodes, all[|nodes|..], last, upto);
    OpsSplit(all, last, upto, f.threads[u].upto);
  }
}
