/** Reference-counted deletion of a graph shared by several sessions (tensorflow/c/c_api.cc):
    the count and the delete request change under the lock, the graph is freed after it is dropped. */
module GraphLifetime {

  type Tid = nat
  type Sid = nat

  // ---- What is kept under the lock ----

  datatype Life = Life(numSessions: int, deleteRequested: bool)

  /** The graph must go. */
  predicate Over(life: Life) {
    life.deleteRequested && life.numSessions == 0
  }

  function Counted(life: Life): Life {
    life.(numSessions := life.numSessions + 1)
  }

  /** The critical section of deleting the graph, and its verdict `del`. */
  function Requested(life: Life): (Life, bool) {
    (life.(deleteRequested := true), life.numSessions == 0)
  }

  /** The critical section of deleting a session, and its verdict. */
  function Dropped(life: Life): (Life, bool) {
    var left := life.(numSessions := life.numSessions - 1);
    (left, left.deleteRequested && left.numSessions == 0)
  }

  // ---- Threads interleaved ----

  /** Where a thread stands in one of the four calls that touch the graph's life; the critical
      sections of the source are single steps between these points. */
  datatype Pc =
    | Idle
    | NewSession                 // the session exists, the graph's count is not raised yet
    | DeleteGraph                // before the critical section
    | DeleteSession(sid: Sid)    // before the critical section
    | Freeing(del: bool)         // the lock is dropped; del was computed under it

  /** attached are the sessions counted in numSessions; usable those the client may use or delete.
      touchedAfterFree records an access to a graph that was already freed. */
  datatype State = State(
    life: Life,
    freed: nat,
    threads: map<Tid, Pc>,
    attached: set<Sid>,
    usable: set<Sid>,
    deleteCalled: bool,
    touchedAfterFree: bool)
  {
    predicate In(t: Tid, pc: Pc) {
      t in threads && threads[t] == pc
    }

    function Go(t: Tid, pc: Pc): State {
      this.(threads := threads[t := pc])
    }

    /** An access to the graph. */
    function Touch(): State {
      this.(touchedAfterFree := touchedAfterFree || 0 < freed)
    }
  }

  datatype Step =
    | StartNewSession(t: Tid)
    | CountSession(t: Tid, sid: Sid)
    | UseSession(t: Tid, sid: Sid)
    | UseGraph(t: Tid)
    | StartDeleteGraph(t: Tid)
    | RequestDelete(t: Tid)
    | StartDeleteSession(t: Tid, sid: Sid)
    | DropSession(t: Tid)
    | Free(t: Tid)

  /** What the code itself can do next, whatever its clients do. */
  predicate Enabled(s: State, step: Step) {
    match step
    case StartNewSession(t) => s.In(t, Idle)
    case CountSession(t, sid) => s.In(t, NewSession) && sid !in s.attached
    case UseSession(t, sid) => s.In(t, Idle) && sid in s.usable
    case UseGraph(t) => s.In(t, Idle)
    case StartDeleteGraph(t) => s.In(t, Idle)
    case RequestDelete(t) => s.In(t, DeleteGraph)
    case StartDeleteSession(t, sid) => s.In(t, Idle) && sid in s.usable
    case DropSession(t) => t in s.threads && s.threads[t].DeleteSession?
    case Free(t) => t in s.threads && s.threads[t].Freeing?
  }

  /** What clients promise: the graph is deleted once, no session is being created or created later,
      and nobody uses the graph itself afterwards. */
  predicate ClientRule(s: State, step: Step) {
    match step
    case StartNewSession(t) => !s.deleteCalled
    case UseGraph(t) => !s.deleteCalled
    case StartDeleteGraph(t) => !s.deleteCalled && forall u :: u in s.threads ==> !s.threads[u].NewSession?
    case _ => true
  }

  function Apply(s: State, step: Step): State
    requires Enabled(s, step)
  {
    match step
    case StartNewSession(t) => s.Go(t, NewSession)
    case CountSession(t, sid) =>
      s.Touch().Go(t, Idle).(life := Counted(s.life), attached := s.attached + {sid}, usable := s.usable + {sid})
    case UseSession(t, sid) => s.Touch()
    case UseGraph(t) => s.Touch()
    case StartDeleteGraph(t) => s.Go(t, DeleteGraph).(deleteCalled := true)
    case RequestDelete(t) => s.Touch().Go(t, Freeing(Requested(s.life).1)).(life := Requested(s.life).0)
    case StartDeleteSession(t, sid) => s.Go(t, DeleteSession(sid)).(usable := s.usable - {sid})
    case DropSession(t) =>
      s.Touch().Go(t, Freeing(Dropped(s.life).1)).(life := Dropped(s.life).0, attached := s.attached - {s.threads[t].sid})
    case Free(t) => s.Go(t, Idle).(freed := s.freed + (if s.threads[t].del then 1 else 0))
  }

  predicate Initial(s: State) {
    && s.life.numSessions == 0 && !s.life.deleteRequested && s.freed == 0 && s.attached == {} && s.usable == {}
    && !s.deleteCalled && !s.touchedAfterFree
    && forall t :: t in s.threads ==> s.threads[t] == Idle
  }

  predicate IsRun(s: State, steps: seq<Step>)
    decreases |steps|
  {
    steps == [] || (Enabled(s, steps[0]) && IsRun(Apply(s, steps[0]), steps[1..]))
  }

  function Final(s: State, steps: seq<Step>): State
    requires IsRun(s, steps)
    decreases |steps|
  {
    if steps == [] then s else Final(Apply(s, steps[0]), steps[1..])
  }

  predicate FollowsRules(s: State, steps: seq<Step>)
    requires IsRun(s, steps)
    decreases |steps|
  {
    steps != [] ==> ClientRule(s, steps[0]) && FollowsRules(Apply(s, steps[0]), steps[1..])
  }

  // ---- The invariant ----

  /** The count counts the attached sessions; a session being deleted is attached, no longer usable, and nobody else deletes it. */
  ghost predicate CountInv(s: State) {
    && s.life.numSessions == |s.attached| && s.usable <= s.attached
    && DeletersInv(s)
    && (forall n :: n in s.attached && n !in s.usable ==> BeingDeleted(s, n))
  }

  ghost predicate DeletersInv(s: State) {
    && (forall t :: t in s.threads && s.threads[t].DeleteSession? ==>
          s.threads[t].sid in s.attached && s.threads[t].sid !in s.usable)
    && (forall t, u :: t in s.threads && u in s.threads && t != u && s.threads[t].DeleteSession?
          ==> s.threads[t] != s.threads[u])
  }

  ghost predicate BeingDeleted(s: State, sid: Sid) {
    exists t :: s.In(t, DeleteSession(sid))
  }

  ghost predicate SomeoneIn(threads: map<Tid, Pc>, pc: Pc) {
    exists t :: t in threads && threads[t] == pc
  }

  ghost predicate AtMostOneIn(threads: map<Tid, Pc>, pc: Pc) {
    forall t, u :: t in threads && u in threads && threads[t] == pc && threads[u] == pc ==> t == u
  }

  /** Deletion is requested by the one thread that called for it; no session is created meanwhile. */
  ghost predicate DeleteInv(s: State) {
    && (s.life.deleteRequested ==> s.deleteCalled)
    && (s.deleteCalled ==> forall t :: t in s.threads ==> !s.threads[t].NewSession?)
    && AtMostOneIn(s.threads, DeleteGraph)
    && (SomeoneIn(s.threads, DeleteGraph) <==> s.deleteCalled && !s.life.deleteRequested)
  }

  /** Deletion was requested and no session is attached: the state in which the graph must go. */
  predicate Done(s: State) {
    s.life.deleteRequested && s.attached == {}
  }

  /** The graph is freed, or one thread is about to free it, exactly when it is done with. */
  ghost predicate FreeInv(s: State) {
    && !s.touchedAfterFree && s.freed <= 1
    && AtMostOneIn(s.threads, Freeing(true))
    && (0 < s.freed ==> Done(s) && !SomeoneIn(s.threads, Freeing(true)))
    && (s.freed == 0 ==> (Done(s) <==> SomeoneIn(s.threads, Freeing(true))))
  }

  ghost predicate Inv(s: State) {
    CountInv(s) && DeleteInv(s) && FreeInv(s)
  }

  lemma InitialInv(s: State)
    requires Initial(s)
    ensures Inv(s)
  {
  }

  lemma CountKept(s: State, step: Step)
    requires CountInv(s) && Enabled(s, step)
    ensures CountInv(Apply(s, step))
  {
    var s' := Apply(s, step);
    forall n | n in s'.attached && n !in s'.usable
      ensures BeingDeleted(s', n)
    {
      DeletionGoesOn(s, step, n);
    }
    SizeKept(s, step);
    DeletersKept(s, step);
  }

  lemma SizeKept(s: State, step: Step)
    requires s.life.numSessions == |s.attached| && s.usable <= s.attached && DeletersInv(s) && Enabled(s, step)
    ensures var s' := Apply(s, step); s'.life.numSessions == |s'.attached| && s'.usable <= s'.attached
  {
    if step.DropSession? {
      var sid := s.threads[step.t].sid;
      assert sid in s.attached && sid !in s.usable;
    }
  }

  lemma DeletersKept(s: State, step: Step)
    requires s.usable <= s.attached && DeletersInv(s) && Enabled(s, step)
    ensures DeletersInv(Apply(s, step))
  {
  }

  lemma DeletionGoesOn(s: State, step: Step, n: Sid)
    requires CountInv(s) && Enabled(s, step)
    requires n in Apply(s, step).attached && n !in Apply(s, step).usable
    ensures BeingDeleted(Apply(s, step), n)
  {
    var s' := Apply(s, step);
    if step.StartDeleteSession? && n == step.sid {
      assert s'.In(step.t, DeleteSession(n));
    } else {
      assert BeingDeleted(s, n);
      var t :| s.In(t, DeleteSession(n));
      assert s'.In(t, DeleteSession(n));
    }
  }

  /** A step moves no thread but its own. */
  lemma OneThreadMoves(s: State, step: Step)
    requires Enabled(s, step)
    ensures step.t in s.threads && step.t in Apply(s, step).threads
    ensures Apply(s, step).threads == s.threads[step.t := Apply(s, step).threads[step.t]]
  {
  }

  /** A thread that does not move stays where it is. */
  lemma OthersStay(threads: map<Tid, Pc>, t: Tid, to: Pc, pc: Pc)
    requires t in threads && threads[t] != pc && to != pc
    ensures SomeoneIn(threads[t := to], pc) <==> SomeoneIn(threads, pc)
    ensures AtMostOneIn(threads, pc) ==> AtMostOneIn(threads[t := to], pc)
  {
    if SomeoneIn(threads, pc) {
      var u :| u in threads && threads[u] == pc;
      assert threads[t := to][u] == pc;
    }
  }

  /** The only thread at a point leaves it, or a thread reaches a point where nobody was. */
  lemma OnlyOneMoves(threads: map<Tid, Pc>, t: Tid, to: Pc, pc: Pc)
    requires t in threads && AtMostOneIn(threads, pc)
    ensures threads[t] == pc && to != pc ==> !SomeoneIn(threads[t := to], pc)
    ensures to == pc ==> SomeoneIn(threads[t := to], pc)
    ensures !SomeoneIn(threads, pc) || to != pc ==> AtMostOneIn(threads[t := to], pc)
  {
    assert threads[t := to][t] == to;
  }

  lemma DeleteKept(s: State, step: Step)
    requires DeleteInv(s) && Enabled(s, step) && ClientRule(s, step)
    ensures DeleteInv(Apply(s, step))
  {
    var to := Apply(s, step).threads[step.t];
    OneThreadMoves(s, step);
    OnlyOneMoves(s.threads, step.t, to, DeleteGraph);
    if !step.StartDeleteGraph? && !step.RequestDelete? {
      OthersStay(s.threads, step.t, to, DeleteGraph);
    }
  }

  /** No step of the code touches a graph that has been freed. */
  lemma StepTouchesLiveGraph(s: State, step: Step)
    requires Inv(s) && Enabled(s, step) && ClientRule(s, step)
    ensures !Apply(s, step).touchedAfterFree
  {
    if step.RequestDelete? {
      assert SomeoneIn(s.threads, DeleteGraph);
    }
  }

  lemma FreeKept(s: State, step: Step)
    requires Inv(s) && Enabled(s, step) && ClientRule(s, step)
    ensures FreeInv(Apply(s, step))
  {
    var s' := Apply(s, step);
    StepTouchesLiveGraph(s, step);
    var to := s'.threads[step.t];
    OneThreadMoves(s, step);
    OnlyOneMoves(s.threads, step.t, to, Freeing(true));
    match step
    case RequestDelete(t) =>
      assert SomeoneIn(s.threads, DeleteGraph);
      assert s.life.numSessions == 0 <==> s.attached == {};
      FreeingStarts(s, step);
    case DropSession(t) =>
      assert |s'.attached| == s.life.numSessions - 1 by { CountKept(s, step); }
      FreeingStarts(s, step);
    case Free(t) =>
      if s.threads[t] == Freeing(true) {
        assert SomeoneIn(s.threads, Freeing(true));
      } else {
        OthersStay(s.threads, step.t, to, Freeing(true));
      }
    case _ =>
      OthersStay(s.threads, step.t, to, Freeing(true));
      assert Done(s') <==> Done(s);
  }

  /** A thread that leaves a critical section while nobody is freeing the graph. */
  lemma FreeingStarts(s: State, step: Step)
    requires Enabled(s, step) && (step.RequestDelete? || step.DropSession?) && !SomeoneIn(s.threads, Freeing(true))
    ensures SomeoneIn(Apply(s, step).threads, Freeing(true)) <==> Apply(s, step).threads[step.t] == Freeing(true)
  {
    var to := Apply(s, step).threads[step.t];
    OneThreadMoves(s, step);
    OnlyOneMoves(s.threads, step.t, to, Freeing(true));
    if to != Freeing(true) {
      OthersStay(s.threads, step.t, to, Freeing(true));
    }
  }

  lemma {:induction false} InvAlways(s: State, steps: seq<Step>)
    requires Inv(s) && IsRun(s, steps) && FollowsRules(s, steps)
    ensures Inv(Final(s, steps))
    decreases |steps|
  {
    if steps != [] {
      CountKept(s, steps[0]);
      DeleteKept(s, steps[0]);
      FreeKept(s, steps[0]);
      InvAlways(Apply(s, steps[0]), steps[1..]);
    }
  }

  /** In every interleaving of clients that follow the rules the graph is freed at most once, never
      while a session is attached or deletion has not been requested, never by two threads, and
      nothing ever touches it after it is freed. */
  lemma FreedOnceAndLast(s: State, steps: seq<Step>)
    requires Initial(s) && IsRun(s, steps) && FollowsRules(s, steps)
    ensures var f := Final(s, steps);
      && f.freed <= 1 && !f.touchedAfterFree && AtMostOneIn(f.threads, Freeing(true))
      && (0 < f.freed ==> !SomeoneIn(f.threads, Freeing(true)))
      && (0 < f.freed || SomeoneIn(f.threads, Freeing(true)) ==> f.life.deleteRequested && f.life.numSessions == 0 && f.usable == {})
  {
    InitialInv(s);
    InvAlways(s, steps);
  }

  /** When every call has finished, the graph has been freed exactly if it was deleted and every
      session on it too. */
  lemma FreedIffAllGone(s: State, steps: seq<Step>)
    requires Initial(s) && IsRun(s, steps) && FollowsRules(s, steps)
    requires forall t :: t in Final(s, steps).threads ==> Final(s, steps).threads[t] == Idle
    ensures var f := Final(s, steps);
      f.freed == (if f.deleteCalled && f.usable == {} then 1 else 0)
  {
    InitialInv(s);
    InvAlways(s, steps);
    var f := Final(s, steps);
    assert !SomeoneIn(f.threads, DeleteGraph) && !SomeoneIn(f.threads, Freeing(true));
    assert forall n :: !BeingDeleted(f, n);
    assert f.attached == f.usable;
  }

  // ---- The rules are needed ----

  const TWO_THREADS := State(Life(0, false), 0, map[0 := Idle, 1 := Idle], {}, {}, false, false)

  lemma {:induction false} Extend(s: State, steps: seq<Step>, last: Step) returns (more: seq<Step>)
    requires IsRun(s, steps) && Enabled(Final(s, steps), last)
    ensures more == steps + [last] && IsRun(s, more) && Final(s, more) == Apply(Final(s, steps), last)
    decreases |steps|
  {
    more := steps + [last];
    if steps == [] {
      assert more[1..] == [];
    } else {
      var rest := Extend(Apply(s, steps[0]), steps[1..], last);
      assert more[1..] == rest;
    }
  }

  /** Two threads that both delete a graph without sessions free it twice. */
  lemma TwoDeletesFreeTwice() returns (steps: seq<Step>)
    ensures Initial(TWO_THREADS) && IsRun(TWO_THREADS, steps) && Final(TWO_THREADS, steps).freed == 2
  {
    steps := Extend(TWO_THREADS, [], StartDeleteGraph(0));
    steps := Extend(TWO_THREADS, steps, StartDeleteGraph(1));
    steps := Extend(TWO_THREADS, steps, RequestDelete(0));
    steps := Extend(TWO_THREADS, steps, RequestDelete(1));
    steps := Extend(TWO_THREADS, steps, Free(0));
    steps := Extend(TWO_THREADS, steps, Free(1));
  }

  /** A session whose creation overlaps the deletion of the graph is counted on a freed graph. */
  lemma LateSessionTouchesFreedGraph() returns (steps: seq<Step>)
    ensures Initial(TWO_THREADS) && IsRun(TWO_THREADS, steps) && Final(TWO_THREADS, steps).touchedAfterFree
  {
    steps := Extend(TWO_THREADS, [], StartNewSession(0));
    steps := Extend(TWO_THREADS, steps, StartDeleteGraph(1));
    steps := Extend(TWO_THREADS, steps, RequestDelete(1));
    steps := Extend(TWO_THREADS, steps, Free(1));
    steps := Extend(TWO_THREADS, steps, CountSession(0, 0));
  }
}
