/** The pool of sub-streams a stream hands out and takes back (tensorflow/stream_executor/stream.cc).
    Every operation takes the stream's mutex, which is not recursive: one that takes it again while
    holding it never returns, and neither does any operation after it. */
module SubStreams {

  type StreamId = nat

  datatype Entry = Entry(stream: StreamId, available: bool)

  type Pool = seq<Entry>

  // ---- The operations on the pool ----

  /** The first available entry, or the pool's size. */
  function FirstAvailable(pool: Pool): (i: nat)
    ensures i <= |pool| && (i < |pool| ==> pool[i].available)
    ensures forall k :: 0 <= k < i ==> !pool[k].available
  {
    if pool == [] || pool[0].available then 0
    else
      var i := FirstAvailable(pool[1..]);
      assert forall k :: 1 <= k < i + 1 ==> pool[k] == pool[1..][k - 1];
      i + 1
  }

  /** The pool after handing out a stream: the first available one, or the given new one. */
  function GetPool(pool: Pool, created: StreamId): Pool {
    var i := FirstAvailable(pool);
    if i < |pool| then pool[i := pool[i].(available := false)] else pool + [Entry(created, false)]
  }

  function GetStream(pool: Pool, created: StreamId): StreamId {
    var i := FirstAvailable(pool);
    if i < |pool| then pool[i].stream else created
  }

  predicate Knows(pool: Pool, stream: StreamId) {
    exists i :: 0 <= i < |pool| && pool[i].stream == stream
  }

  ghost predicate DistinctStreams(pool: Pool) {
    forall i, k :: 0 <= i < k < |pool| ==> pool[i].stream != pool[k].stream
  }

  function ReturnPool(pool: Pool, stream: StreamId): Pool {
    seq(|pool|, i requires 0 <= i < |pool| => if pool[i].stream == stream then pool[i].(available := true) else pool[i])
  }

  /** A stream that is handed out and will not block without error. */
  predicate Failing(e: Entry, done: set<StreamId>) {
    !e.available && e.stream !in done
  }

  /** The first failing entry, or the pool's size. */
  function FirstFailing(pool: Pool, done: set<StreamId>): (i: nat)
    ensures i <= |pool| && (i < |pool| ==> Failing(pool[i], done))
    ensures forall k :: 0 <= k < i ==> !Failing(pool[k], done)
  {
    if pool == [] || Failing(pool[0], done) then 0
    else
      var i := FirstFailing(pool[1..], done);
      assert forall k :: 1 <= k < i + 1 ==> pool[k] == pool[1..][k - 1];
      i + 1
  }

  /** Every stream that is handed out blocks without error. */
  predicate AllDone(pool: Pool, done: set<StreamId>) {
    forall i :: 0 <= i < |pool| ==> !Failing(pool[i], done)
  }

  /** The pool with its first n streams taken back. */
  function Freed(pool: Pool, n: nat): Pool {
    seq(|pool|, i requires 0 <= i < |pool| => if i < n then pool[i].(available := true) else pool[i])
  }

  /** How many streams are handed out. */
  function Outstanding(pool: Pool): nat {
    if pool == [] then 0 else Outstanding(pool[..|pool| - 1]) + (if pool[|pool| - 1].available then 0 else 1)
  }

  /** How a call ends; Aborted is a failed CHECK or LOG(FATAL). */
  datatype Outcome<T> = Returned(value: T) | Aborted | Hangs

  class Stream {
    var subStreams: Pool
    var ok: bool
    /** The mutex is held by a call that waits for it. */
    var stuck: bool

    constructor ()
      ensures subStreams == [] && ok && !stuck
    {
      subStreams, ok, stuck := [], true, false;
    }

    /** created names the stream that is constructed when none is available. The source's CHECK looks
        at this stream's own state after adding the new entry. */
    method GetOrCreateSubStream(created: StreamId) returns (r: Outcome<StreamId>)
      modifies this`subStreams
      ensures stuck ==> r == Hangs && subStreams == old(subStreams)
      ensures !stuck ==> subStreams == GetPool(old(subStreams), created)
      ensures !stuck && (ok || FirstAvailable(old(subStreams)) < |old(subStreams)|) ==>
        r == Returned(GetStream(old(subStreams), created))
      ensures !stuck && !ok && FirstAvailable(old(subStreams)) == |old(subStreams)| ==> r == Aborted
    {
      if stuck {
        return Hangs;
      }
      for i := 0 to |subStreams|
        invariant subStreams == old(subStreams)
        invariant forall k :: 0 <= k < i ==> !subStreams[k].available
      {
        if subStreams[i].available {
          assert FirstAvailable(subStreams) == i;
          r := Returned(subStreams[i].stream);
          subStreams := subStreams[i := subStreams[i].(available := false)];
          return;
        }
      }
      assert FirstAvailable(subStreams) == |subStreams|;
      subStreams := subStreams + [Entry(created, false)];
      r := if ok then Returned(created) else Aborted;
    }

    method ReturnSubStream(stream: StreamId) returns (r: Outcome<()>)
      requires DistinctStreams(subStreams)
      modifies this`subStreams
      ensures stuck ==> r == Hangs && subStreams == old(subStreams)
      ensures !stuck ==> r == if Knows(old(subStreams), stream) then Returned(()) else Aborted
      ensures !stuck ==> subStreams == ReturnPool(old(subStreams), stream)
    {
      if stuck {
        return Hangs;
      }
      for i := 0 to |subStreams|
        invariant subStreams == old(subStreams)
        invariant forall k :: 0 <= k < i ==> subStreams[k].stream != stream
      {
        if subStreams[i].stream == stream {
          subStreams := subStreams[i := subStreams[i].(available := true)];
          assert subStreams == ReturnPool(old(subStreams), stream);
          return Returned(());
        }
      }
      assert subStreams == ReturnPool(subStreams, stream);
      return Aborted;
    }

    /** done tells which sub-streams block without error, hostDone whether the stream itself does. An
        error of a sub-stream is reported while the mutex is held, and reporting it takes the mutex. */
    method BlockHostUntilDone(done: set<StreamId>, hostDone: bool) returns (r: Outcome<bool>)
      modifies this
      ensures old(stuck) ==> r == Hangs && subStreams == old(subStreams) && ok == old(ok) && stuck
      ensures !old(stuck) && !old(ok) ==> r == Returned(false) && subStreams == old(subStreams) && !ok && !stuck
      ensures !old(stuck) && old(ok) ==> subStreams == Freed(old(subStreams), FirstFailing(old(subStreams), done))
      ensures !old(stuck) && old(ok) ==> (stuck <==> !AllDone(old(subStreams), done)) && (r == Hangs <==> stuck)
      ensures !old(stuck) && old(ok) && stuck ==> ok
      ensures !old(stuck) && old(ok) && !stuck ==> r == Returned(hostDone) && ok == hostDone
    {
      if stuck {
        return Hangs;
      }
      if !ok {
        return Returned(false);
      }
      ghost var before := subStreams;
      for i := 0 to |subStreams|
        invariant ok && !stuck && subStreams == Freed(before, i)
        invariant forall k :: 0 <= k < i ==> !Failing(before[k], done)
      {
        if !subStreams[i].available {
          if subStreams[i].stream !in done {
            assert FirstFailing(before, done) == i;
            stuck := true;
            return Hangs;
          }
          subStreams := subStreams[i := subStreams[i].(available := true)];
        }
        assert subStreams == Freed(before, i + 1);
      }
      assert FirstFailing(before, done) == |before|;
      ok := hostDone;
      return Returned(ok);
    }
  }

  // ---- Runs ----

  /** leases[k] is the stream the k-th call of GetOrCreateSubStream handed out; live are the leases
      neither returned nor reclaimed by a block. */
  datatype State = State(pool: Pool, leases: seq<StreamId>, live: set<nat>, ok: bool, stuck: bool)

  /** Fail is any operation that puts the stream into error. */
  datatype Op = Get | Return(lease: nat) | Block(done: set<StreamId>, hostDone: bool) | Fail

  /** The calls that leave the process running: none after one that hangs, and no new stream is made in error. */
  predicate Enabled(s: State, op: Op) {
    && !s.stuck
    && (op.Get? ==> s.ok || FirstAvailable(s.pool) < |s.pool|)
    && (op.Return? ==> op.lease < |s.leases|)
  }

  /** The leases of streams from place n of the pool on. */
  function LiveFrom(s: State, n: nat): set<nat> {
    set k | k in s.live && k < |s.leases| && n <= s.leases[k]
  }

  /** A new stream is numbered by the pool's size: constructing one gives a stream not seen before. */
  function Apply(s: State, op: Op): State
    requires Enabled(s, op)
  {
    match op
    case Get =>
      s.(pool := GetPool(s.pool, |s.pool|), leases := s.leases + [GetStream(s.pool, |s.pool|)], live := s.live + {|s.leases|})
    case Return(k) => s.(pool := ReturnPool(s.pool, s.leases[k]), live := s.live - {k})
    case Block(done, hostDone) =>
      if !s.ok then s else
      var n := FirstFailing(s.pool, done);
      s.(pool := Freed(s.pool, n), live := LiveFrom(s, n), stuck := n < |s.pool|, ok := n < |s.pool| || hostDone)
    case Fail => s.(ok := false)
  }

  const INITIAL := State([], [], {}, true, false)

  predicate IsRun(s: State, ops: seq<Op>)
    decreases |ops|
  {
    ops == [] || (Enabled(s, ops[0]) && IsRun(Apply(s, ops[0]), ops[1..]))
  }

  function Final(s: State, ops: seq<Op>): State
    requires IsRun(s, ops)
    decreases |ops|
  {
    if ops == [] then s else Final(Apply(s, ops[0]), ops[1..])
  }

  /** The state after the first i operations. */
  function StateAt(s: State, ops: seq<Op>, i: nat): State
    requires IsRun(s, ops) && i <= |ops|
    decreases i
  {
    if i == 0 then s else StateAt(Apply(s, ops[0]), ops[1..], i - 1)
  }

  /** Every lease that is given back is one that was neither returned nor reclaimed before. */
  predicate Disciplined(s: State, ops: seq<Op>)
    requires IsRun(s, ops)
    decreases |ops|
  {
    ops != [] ==>
      && (ops[0].Return? ==> ops[0].lease in s.live)
      && Disciplined(Apply(s, ops[0]), ops[1..])
  }

  // ---- Pool size ----

  lemma {:induction false} OutstandingUpdate(pool: Pool, i: nat, e: Entry)
    requires i < |pool|
    ensures Outstanding(pool[i := e]) + (if pool[i].available then 0 else 1)
         == Outstanding(pool) + (if e.available then 0 else 1)
  {
    var n := |pool| - 1;
    if i < n {
      OutstandingUpdate(pool[..n], i, e);
      assert pool[i := e][..n] == pool[..n][i := e];
    } else {
      assert pool[i := e][..n] == pool[..n];
    }
  }

  lemma {:induction false} OutstandingBounds(pool: Pool)
    ensures Outstanding(pool) <= |pool|
    ensures (forall i :: 0 <= i < |pool| ==> !pool[i].available) ==> Outstanding(pool) == |pool|
    ensures (forall i :: 0 <= i < |pool| ==> pool[i].available) ==> Outstanding(pool) == 0
  {
    if pool != [] {
      OutstandingBounds(pool[..|pool| - 1]);
    }
  }

  lemma OutstandingGet(pool: Pool, created: StreamId)
    ensures Outstanding(GetPool(pool, created)) == Outstanding(pool) + 1
  {
    var i := FirstAvailable(pool);
    if i < |pool| {
      OutstandingUpdate(pool, i, pool[i].(available := false));
    } else {
      assert (pool + [Entry(created, false)])[..|pool|] == pool;
    }
  }

  /** At no time were more streams out than the pool holds in the end; and if the pool has grown,
      there was a time when that many were out. */
  lemma {:induction false} PoolGrowsToPeak(s: State, ops: seq<Op>)
    requires IsRun(s, ops)
    ensures |s.pool| <= |Final(s, ops).pool|
    ensures forall i :: 0 <= i <= |ops| ==> Outstanding(StateAt(s, ops, i).pool) <= |Final(s, ops).pool|
    ensures |s.pool| < |Final(s, ops).pool|
      ==> exists i :: 0 <= i <= |ops| && Outstanding(StateAt(s, ops, i).pool) == |Final(s, ops).pool|
    decreases |ops|
  {
    OutstandingBounds(s.pool);
    if ops != [] {
      var s', f := Apply(s, ops[0]), Final(s, ops);
      if ops[0].Get? {
        OutstandingGet(s.pool, |s.pool|);
      }
      PoolGrowsToPeak(s', ops[1..]);
      forall i | 0 <= i <= |ops|
        ensures Outstanding(StateAt(s, ops, i).pool) <= |f.pool|
      {
        assert 0 < i ==> StateAt(s, ops, i) == StateAt(s', ops[1..], i - 1);
      }
      if |s'.pool| < |f.pool| {
        var i :| 0 <= i <= |ops[1..]| && Outstanding(StateAt(s', ops[1..], i).pool) == |f.pool|;
        assert StateAt(s, ops, i + 1) == StateAt(s', ops[1..], i);
      } else if |s.pool| < |f.pool| {
        assert StateAt(s, ops, 1) == StateAt(s', ops[1..], 0) == s';
      }
    }
  }

  /** After every run from an empty pool, disciplined or not, the pool is exactly as large as the
      largest number of sub-streams ever outstanding at once. */
  lemma PoolSizeIsPeak(ops: seq<Op>)
    requires IsRun(INITIAL, ops)
    ensures forall i :: 0 <= i <= |ops| ==> Outstanding(StateAt(INITIAL, ops, i).pool) <= |Final(INITIAL, ops).pool|
    ensures exists i :: 0 <= i <= |ops| && Outstanding(StateAt(INITIAL, ops, i).pool) == |Final(INITIAL, ops).pool|
  {
    PoolGrowsToPeak(INITIAL, ops);
    assert Outstanding(StateAt(INITIAL, ops, 0).pool) == 0;
  }

  // ---- Exclusive leases ----

  /** The live leases are of different streams, and these are exactly the streams marked as handed out. */
  ghost predicate Matched(s: State) {
    && (forall k :: k in s.live ==> k < |s.leases|)
    && (forall k, m :: k in s.live && m in s.live && k != m ==> s.leases[k] != s.leases[m])
    && (forall i :: 0 <= i < |s.pool| ==> (s.pool[i].available <==> !Leased(s, s.pool[i].stream)))
  }

  ghost predicate Leased(s: State, stream: StreamId) {
    exists k :: k in s.live && k < |s.leases| && s.leases[k] == stream
  }

  /** Streams are numbered by their place in the pool, and every lease is of a stream in the pool. */
  ghost predicate Numbered(s: State) {
    && (forall i :: 0 <= i < |s.pool| ==> s.pool[i].stream == i)
    && (forall k :: 0 <= k < |s.leases| ==> s.leases[k] < |s.pool|)
  }

  lemma NumberedKept(s: State, op: Op)
    requires Numbered(s) && Enabled(s, op)
    ensures Numbered(Apply(s, op))
  {
  }

  lemma GetKeepsMatched(s: State)
    requires Matched(s) && Numbered(s) && Enabled(s, Get)
    ensures Matched(Apply(s, Get)) && !Leased(s, GetStream(s.pool, |s.pool|))
  {
    var s', g := Apply(s, Get), GetStream(s.pool, |s.pool|);
    var n := |s.leases|;
    assert n !in s.live;
    assert s'.leases[n] == g;
    assert !Leased(s, g) by {
      var i := FirstAvailable(s.pool);
      assert i < |s.pool| ==> s.pool[i].available;
    }
    forall i | 0 <= i < |s'.pool|
      ensures s'.pool[i].available <==> !Leased(s', s'.pool[i].stream)
    {
      if i == g {
        assert s'.leases[n] == s'.pool[i].stream;
      } else {
        LeasedFrame(s, s', i);
      }
    }
  }

  lemma LeasedFrame(s: State, s': State, stream: StreamId)
    requires |s'.leases| == |s.leases| + 1 && s'.leases[..|s.leases|] == s.leases
    requires s'.live == s.live + {|s.leases|} && s'.leases[|s.leases|] != stream
    ensures Leased(s, stream) <==> Leased(s', stream)
  {
    if Leased(s, stream) {
      var k :| k in s.live && k < |s.leases| && s.leases[k] == stream;
      assert s'.leases[k] == s'.leases[..|s.leases|][k] == stream;
    }
    if Leased(s', stream) {
      var k :| k in s'.live && k < |s'.leases| && s'.leases[k] == stream;
      assert s'.leases[..|s.leases|][k] == stream;
    }
  }

  /** Giving a lease back keeps the flags right exactly when the lease is live, or its stream is not
      leased to anybody now. A caller of a lease reclaimed by a block cannot know the latter. */
  lemma ReturnKeepsMatchedIff(s: State, k: nat)
    requires Matched(s) && Numbered(s) && Enabled(s, Return(k))
    ensures Matched(Apply(s, Return(k))) <==> k in s.live || !Leased(s, s.leases[k])
  {
    var s', g := Apply(s, Return(k)), s.leases[k];
    forall i | 0 <= i < |s.pool| && i != g
      ensures Leased(s, i) <==> Leased(s', i)
    {
    }
    if k in s.live {
      assert !Leased(s', g);
    } else {
      assert Leased(s, g) <==> Leased(s', g);
      assert s'.pool[g] == Entry(g, true);
    }
  }

  lemma BlockKeepsMatched(s: State, done: set<StreamId>, hostDone: bool)
    requires Matched(s) && Numbered(s) && Enabled(s, Block(done, hostDone))
    ensures Matched(Apply(s, Block(done, hostDone)))
  {
    var s', n := Apply(s, Block(done, hostDone)), FirstFailing(s.pool, done);
    if s.ok {
      forall i | 0 <= i < |s.pool|
        ensures Leased(s', i) <==> n <= i && Leased(s, i)
      {
        if n <= i && Leased(s, i) {
          var k :| k in s.live && k < |s.leases| && s.leases[k] == i;
          assert k in s'.live;
        }
      }
    }
  }

  /** There are as many live leases as streams handed out. */
  lemma LiveIsOutstanding(s: State)
    requires Matched(s) && Numbered(s)
    ensures |s.live| == Outstanding(s.pool)
  {
    var out := set i | 0 <= i < |s.pool| && !s.pool[i].available;
    OutstandingIsSize(s.pool, out);
    SameSize(s.live, out, s.leases);
  }

  lemma {:induction false} OutstandingIsSize(pool: Pool, out: set<nat>)
    requires forall i: nat :: i in out <==> i < |pool| && !pool[i].available
    ensures |out| == Outstanding(pool)
  {
    if pool == [] {
      assert out == {};
    } else {
      var n := |pool| - 1;
      OutstandingIsSize(pool[..n], out - {n});
    }
  }

  /** f pairs the members of a with those of b. */
  lemma {:induction false} SameSize(a: set<nat>, b: set<nat>, f: seq<nat>)
    requires forall k :: k in a ==> k < |f| && f[k] in b
    requires forall k, m :: k in a && m in a && k != m ==> f[k] != f[m]
    requires forall i :: i in b ==> exists k :: k in a && k < |f| && f[k] == i
    ensures |a| == |b|
    decreases a
  {
    if a == {} {
      assert b == {};
    } else {
      var k :| k in a;
      SameSize(a - {k}, b - {f[k]}, f);
    }
  }

  /** In a disciplined run the sub-streams handed out and neither returned nor reclaimed are all
      different, they are exactly those marked as taken, and the outstanding count counts them. */
  lemma {:induction false} LeasesAreExclusive(s: State, ops: seq<Op>)
    requires IsRun(s, ops) && Disciplined(s, ops) && Matched(s) && Numbered(s)
    ensures Matched(Final(s, ops)) && Numbered(Final(s, ops))
    ensures |Final(s, ops).live| == Outstanding(Final(s, ops).pool)
    decreases |ops|
  {
    if ops == [] {
      LiveIsOutstanding(s);
    } else {
      match ops[0] {
        case Get => GetKeepsMatched(s);
        case Return(k) => ReturnKeepsMatchedIff(s, k);
        case Block(done, hostDone) => BlockKeepsMatched(s, done, hostDone);
        case Fail => assert forall i :: Leased(s, i) <==> Leased(Apply(s, Fail), i);
      }
      NumberedKept(s, ops[0]);
      LeasesAreExclusive(Apply(s, ops[0]), ops[1..]);
    }
  }

  lemma InitialMatched()
    ensures Matched(INITIAL) && Numbered(INITIAL)
  {
  }

  /** So in a disciplined run from the start no stream is out twice. */
  lemma NoStreamOutTwice(ops: seq<Op>)
    requires IsRun(INITIAL, ops) && Disciplined(INITIAL, ops)
    ensures var f := Final(INITIAL, ops);
      forall j, k :: j in f.live && k in f.live && j != k ==> j < |f.leases| && k < |f.leases| && f.leases[j] != f.leases[k]
  {
    InitialMatched();
    LeasesAreExclusive(INITIAL, ops);
  }

  // ---- Giving back a lease that is not live ----

  ghost predicate Exclusive(s: State) {
    forall j, k :: j in s.live && k in s.live && j != k ==> j < |s.leases| && k < |s.leases| && s.leases[j] != s.leases[k]
  }

  function Gets(n: nat): seq<Op> {
    if n == 0 then [] else [Get] + Gets(n - 1)
  }

  ghost predicate SharedAfter(s: State, n: nat) {
    IsRun(s, Gets(n)) && !Exclusive(Final(s, Gets(n)))
  }

  lemma {:induction false} GetsAreDisciplined(s: State, n: nat)
    requires IsRun(s, Gets(n))
    ensures Disciplined(s, Gets(n))
    decreases n
  {
    if 0 < n {
      assert Gets(n)[1..] == Gets(n - 1);
      GetsAreDisciplined(Apply(s, Get), n - 1);
    }
  }

  lemma GetsKeepExclusive(s: State, n: nat)
    requires Matched(s) && Numbered(s) && IsRun(s, Gets(n))
    ensures Exclusive(Final(s, Gets(n)))
  {
    GetsAreDisciplined(s, n);
    LeasesAreExclusive(s, Gets(n));
  }

  /** A stream that is marked as available while it is leased is handed out again sooner or later. */
  lemma {:induction false} LeasedGoesOutAgain(s: State, k: nat) returns (n: nat)
    requires Numbered(s) && !s.stuck && k in s.live && k < |s.leases| && s.pool[s.leases[k]].available
    requires |s.leases| !in s.live
    requires forall m :: m in s.live ==> m < |s.leases|
    ensures SharedAfter(s, n)
    decreases s.leases[k] - FirstAvailable(s.pool)
  {
    var i, s' := FirstAvailable(s.pool), Apply(s, Get);
    if i == s.leases[k] {
      n := 1;
      assert Gets(1)[1..] == Gets(0) && Final(s, Gets(1)) == s';
      assert s'.leases[|s.leases|] == s'.leases[k];
    } else {
      NumberedKept(s, Get);
      n := LeasedGoesOutAgain(s', k);
      assert Gets(n + 1)[1..] == Gets(n) && Final(s, Gets(n + 1)) == Final(s', Gets(n));
      n := n + 1;
    }
  }

  /** After a lease was given back, however many streams are taken the live leases stay different, exactly
      if the lease was live or its stream was leased to nobody. A caller of a lease that a block
      reclaimed cannot know the latter. */
  lemma ReturnSharesNothingIff(s: State, k: nat)
    requires Matched(s) && Numbered(s) && Enabled(s, Return(k))
    ensures (forall n :: !SharedAfter(Apply(s, Return(k)), n)) <==> k in s.live || !Leased(s, s.leases[k])
  {
    var s' := Apply(s, Return(k));
    NumberedKept(s, Return(k));
    ReturnKeepsMatchedIff(s, k);
    if k in s.live || !Leased(s, s.leases[k]) {
      forall n | IsRun(s', Gets(n))
        ensures Exclusive(Final(s', Gets(n)))
      {
        GetsKeepExclusive(s', n);
      }
    } else {
      var m :| m in s.live && m < |s.leases| && s.leases[m] == s.leases[k];
      var n := LeasedGoesOutAgain(s', m);
    }
  }

  /** The discipline is needed: a stream reclaimed by a block, handed out again, then returned by its
      first holder, goes out to two holders at once. */
  lemma StaleReturnSharesStream()
    ensures var ops := [Get, Block({0}, true), Get, Return(0), Get];
      IsRun(INITIAL, ops) &&
      var f := Final(INITIAL, ops);
      {1, 2} <= f.live && |f.leases| == 3 && f.leases[1] == f.leases[2]
  {
    var block := Block({0}, true);
    var s1 := Apply(INITIAL, Get);
    assert s1 == State([Entry(0, false)], [0], {0}, true, false);
    var s2 := Apply(s1, block);
    assert s2 == State([Entry(0, true)], [0], {}, true, false);
    var tail := [Return(0), Get];
    StaleReturnTail();
    assert Apply(s2, Get) == REUSED;
    assert [Get, Return(0), Get][1..] == tail && [block, Get, Return(0), Get][1..] == [Get, Return(0), Get];
    assert [Get, block, Get, Return(0), Get][1..] == [block, Get, Return(0), Get];
    assert IsRun(s2, [Get, Return(0), Get]) && IsRun(s1, [block, Get, Return(0), Get]);
    assert Final(s1, [block, Get, Return(0), Get]) == Final(s2, [Get, Return(0), Get]) == Final(REUSED, tail);
  }

  /** Stream 0 is out a second time, and its first lease was reclaimed. */
  const REUSED := State([Entry(0, false)], [0, 0], {1}, true, false)

  lemma StaleReturnTail()
    ensures IsRun(REUSED, [Return(0), Get])
    ensures Final(REUSED, [Return(0), Get]) == State([Entry(0, false)], [0, 0, 0], {1, 2}, true, false)
  {
    var s4 := Apply(REUSED, Return(0));
    assert s4 == State([Entry(0, true)], [0, 0], {1}, true, false);
    var s5 := Apply(s4, Get);
    assert s5 == State([Entry(0, false)], [0, 0, 0], {1, 2}, true, false);
    assert [Return(0), Get][1..] == [Get] && [Get][1..] == [];
    assert IsRun(s5, []) && IsRun(s4, [Get]) && Final(s4, [Get]) == s5;
  }

  // ---- When a stream stays usable ----

  /** The call comes back: it is no block on a good stream with a failing stream handed out. */
  predicate ComesBack(s: State, op: Op) {
    op.Block? && s.ok ==> AllDone(s.pool, op.done)
  }

  predicate ComesBackAt(s: State, ops: seq<Op>, i: nat)
    requires IsRun(s, ops) && i < |ops|
  {
    ComesBack(StateAt(s, ops, i), ops[i])
  }

  /** A run leaves the stream usable exactly if every block in it found all streams that were handed out
      done, or the stream in error already; a block that does not come back is the last call. */
  lemma {:induction false} UsableIff(s: State, ops: seq<Op>)
    requires IsRun(s, ops) && !s.stuck
    ensures !Final(s, ops).stuck <==> forall i :: 0 <= i < |ops| ==> ComesBackAt(s, ops, i)
    ensures forall i :: 0 <= i < |ops| && !ComesBackAt(s, ops, i) ==> i == |ops| - 1
    decreases |ops|
  {
    if ops != [] {
      var s', rest := Apply(s, ops[0]), ops[1..];
      if s'.stuck {
        assert rest == [] && !ComesBackAt(s, ops, 0);
      } else {
        UsableIff(s', rest);
        assert ComesBackAt(s, ops, 0);
        forall i | 0 <= i < |rest|
          ensures ComesBackAt(s, ops, i + 1) <==> ComesBackAt(s', rest, i)
        {
          assert StateAt(s, ops, i + 1) == StateAt(s', rest, i);
        }
        if Final(s, ops).stuck {
          var i :| 0 <= i < |rest| && !ComesBackAt(s', rest, i);
          assert !ComesBackAt(s, ops, i + 1);
        }
        forall i | 0 < i < |ops|
          ensures ComesBackAt(s, ops, i) <==> ComesBackAt(s', rest, i - 1)
        {
        }
      }
    }
  }

  /** A block on a good stream comes back exactly if every live lease is of a stream that is done. */
  lemma BlockComesBackIff(s: State, done: set<StreamId>)
    requires Matched(s) && Numbered(s)
    ensures AllDone(s.pool, done) <==> forall k :: k in s.live ==> s.leases[k] in done
  {
    if AllDone(s.pool, done) {
      forall k | k in s.live
        ensures s.leases[k] in done
      {
        assert Leased(s, s.pool[s.leases[k]].stream);
        assert !Failing(s.pool[s.leases[k]], done);
      }
    } else {
      var i :| 0 <= i < |s.pool| && Failing(s.pool[i], done);
      assert Leased(s, s.pool[i].stream);
    }
  }

  /** Two streams are out and the second one fails: the block takes back the first one and never returns,
      and no call after it does anything. */
  lemma FailedStreamHangsBlock()
    ensures var ops := [Get, Get, Block({0}, true)];
      IsRun(INITIAL, ops) &&
      var f := Final(INITIAL, ops);
      f == State([Entry(0, true), Entry(1, false)], [0, 1], {1}, true, true) && forall op :: !Enabled(f, op)
  {
    var block := Block({0}, true);
    var s1 := Apply(INITIAL, Get);
    assert s1 == State([Entry(0, false)], [0], {0}, true, false);
    var s2 := Apply(s1, Get);
    assert s2 == State([Entry(0, false), Entry(1, false)], [0, 1], {0, 1}, true, false);
    var s3 := Apply(s2, block);
    assert s2.pool[1..] == [Entry(1, false)] && !Failing(s2.pool[0], {0}) && Failing(s2.pool[1], {0});
    assert FirstFailing(s2.pool, {0}) == 1;
    assert s3.pool == [Entry(0, true), Entry(1, false)] && s3.live == {1};
    assert [Get, Get, block][1..] == [Get, block] && [Get, block][1..] == [block] && [block][1..] == [];
    assert IsRun(s3, []) && IsRun(s2, [block]) && Final(s2, [block]) == s3;
    assert IsRun(s1, [Get, block]) && Final(s1, [Get, block]) == s3;
  }
}
