/** The entry points that run a session on caller-owned tensors (tensorflow/c/c_api.cc). */
module RunEntry {
  import opened Wrappers
  import opened Arith
  import opened Coding
  import opened StringTensor
  import opened TensorHeap

  /** What a C++ Tensor holds: nothing, a reference to a buffer, or its own copy of the strings. */
  datatype Content = NoBuffer | Words(buffer: BufferId) | Text(ss: seq<str>)

  datatype Tensor = Tensor(dtype: DType, dims: seq<nat>, content: Content)

  const UNSET := Tensor(Plain(1), [0], NoBuffer)

  datatype Status = OK | StringsTooShort | ElementOutOfRange(index: nat) | UnparseableOptions | NonEmptyMetadata | Failed(code: nat)

  class TfStatus {
    var status: Status

    constructor ()
      ensures status == OK
    {
      status := OK;
    }
  }

  /** A TF_Buffer for serialized metadata. */
  class TfBuffer {
    var data: Option<seq<byte>>

    constructor ()
      ensures data == None
    {
      data := None;
    }
  }

  // ---- References held by tensors ----

  function HeldByOne(t: Tensor): multiset<BufferId> {
    if t.content.Words? then multiset{t.content.buffer} else multiset{}
  }

  function HeldBy(ts: seq<Tensor>): multiset<BufferId> {
    if ts == [] then multiset{} else HeldBy(ts[..|ts| - 1]) + HeldByOne(ts[|ts| - 1])
  }

  lemma HeldByAppend(ts: seq<Tensor>, t: Tensor)
    ensures HeldBy(ts + [t]) == HeldBy(ts) + HeldByOne(t)
  {
    assert (ts + [t])[..|ts|] == ts;
  }

  lemma {:induction false} HeldByContains(ts: seq<Tensor>, i: nat)
    requires i < |ts| && ts[i].content.Words?
    ensures ts[i].content.buffer in HeldBy(ts)
  {
    if i < |ts| - 1 {
      HeldByContains(ts[..|ts| - 1], i);
    }
  }

  /** The end of a vector of tensors. */
  method Destruct(heap: Heap, ts: seq<Tensor>, ghost extra: multiset<BufferId>)
    requires heap.Balanced(extra + HeldBy(ts))
    modifies heap`buffers, heap`destroyed
    ensures heap.Balanced(extra)
  {
    var n := |ts|;
    assert ts[..n] == ts;
    while 0 < n
      invariant 0 <= n <= |ts| && heap.Balanced(extra + HeldBy(ts[..n]))
    {
      n := n - 1;
      assert ts[..n + 1] == ts[..n] + [ts[n]];
      HeldByAppend(ts[..n], ts[n]);
      DestructOne(heap, ts[n], extra + HeldBy(ts[..n]), extra + HeldBy(ts[..n + 1]));
    }
    assert extra + HeldBy(ts[..0]) == extra;
  }

  method DestructOne(heap: Heap, t: Tensor, ghost rest: multiset<BufferId>, ghost extra: multiset<BufferId>)
    requires extra == rest + HeldByOne(t) && heap.Balanced(extra)
    modifies heap`buffers, heap`destroyed
    ensures heap.Balanced(rest)
  {
    if t.content.Words? {
      heap.Unref(t.content.buffer, extra);
      assert extra - multiset{t.content.buffer} == rest;
    } else {
      assert extra == rest;
    }
  }

  // ---- Inputs ----

  /** x is what the session is fed for tensor t. */
  ghost predicate Feeds(t: CTensor, made: seq<seq<byte>>, x: Tensor) {
    && x.dtype == t.dtype && x.dims == t.dims && t.buffer < |made|
    && if t.dtype.TfString? then
         x.content.Text? && IsDecoding(NumElements(t.dims), made[t.buffer], Strings(x.content.ss))
       else
         x.content == Words(t.buffer)
  }

  function StatusOf(d: Decoded): Status {
    match d
    case Strings(_) => OK
    case TooShort => StringsTooShort
    case OutOfRange(index) => ElementOutOfRange(index)
  }

  /** t is a string tensor whose bytes cannot be decoded, for the reason s. */
  ghost predicate Undecodable(t: CTensor, made: seq<seq<byte>>, s: Status) {
    && t.dtype.TfString? && t.buffer < |made|
    && exists d :: IsDecoding(NumElements(t.dims), made[t.buffer], d) && !d.Strings? && s == StatusOf(d)
  }

  predicate SignedInput(t: CTensor, made: seq<seq<byte>>) {
    t.dtype.TfString? && t.buffer < |made| ==> Signed(NumElements(t.dims), made[t.buffer])
  }

  /** What a failed decoding leaves in the tensor is of no interest. */
  method MakeInput(heap: Heap, src: Handle, status: TfStatus, ghost extra: multiset<BufferId>) returns (ok: bool, x: Tensor)
    requires heap.Balanced(extra) && src in heap.tensors && SignedInput(heap.tensors[src], heap.made)
    modifies heap`buffers, status
    ensures heap.Balanced(extra + HeldByOne(x))
    ensures ok ==> status.status == old(status.status) && Feeds(heap.tensors[src], heap.made, x)
    ensures !ok ==> Undecodable(heap.tensors[src], heap.made, status.status)
  {
    var t := heap.tensors[src];
    heap.Alive(extra, t.buffer);
    if !t.dtype.TfString? {
      heap.Ref(t.buffer, extra);
      return true, Tensor(t.dtype, t.dims, Words(t.buffer));
    }
    var d := DecodeStrings(NumElements(t.dims), heap.buffers[t.buffer].bytes);
    if d.Strings? {
      ok, x := true, Tensor(t.dtype, t.dims, Text(d.ss));
    } else {
      ok, x, status.status := false, UNSET, StatusOf(d);
    }
    assert extra + HeldByOne(x) == extra;
  }

  function Without(tensors: map<Handle, CTensor>, hs: seq<Handle>): map<Handle, CTensor> {
    tensors - (set h | h in hs)
  }

  /** The handles are of live tensors, all different. */
  ghost predicate Distinct(tensors: map<Handle, CTensor>, hs: seq<Handle>) {
    && (forall i :: 0 <= i < |hs| ==> hs[i] in tensors)
    && (forall i, j :: 0 <= i < j < |hs| ==> hs[i] != hs[j])
  }

  /** Deleting the handles one after the other meets a live tensor each time. */
  ghost predicate Deletable(tensors: map<Handle, CTensor>, hs: seq<Handle>) {
    forall i :: 0 <= i < |hs| ==> hs[i] in Without(tensors, hs[..i])
  }

  /** That is what it takes: with a tensor twice among them, the second deletion meets a deleted one. */
  lemma DeletableIff(tensors: map<Handle, CTensor>, hs: seq<Handle>)
    ensures Deletable(tensors, hs) <==> Distinct(tensors, hs)
  {
    if Deletable(tensors, hs) {
      forall i, j | 0 <= i < j < |hs|
        ensures hs[i] != hs[j]
      {
        assert hs[..j][i] == hs[i] && hs[j] in Without(tensors, hs[..j]);
      }
    }
  }

  ghost predicate FeedsUpTo(tensors: map<Handle, CTensor>, made: seq<seq<byte>>, inputs: seq<Handle>, fed: seq<Tensor>, n: nat) {
    n <= |inputs| && n <= |fed| && forall i :: 0 <= i < n ==> inputs[i] in tensors && Feeds(tensors[inputs[i]], made, fed[i])
  }

  /** Input i is the first that cannot be decoded. */
  ghost predicate FirstBad(tensors: map<Handle, CTensor>, made: seq<seq<byte>>, inputs: seq<Handle>, fed: seq<Tensor>, i: nat, s: Status) {
    && i < |inputs| && inputs[i] in tensors && Undecodable(tensors[inputs[i]], made, s)
    && FeedsUpTo(tensors, made, inputs, fed, i)
  }

  /** The first i of the handles have been deleted, once each, and nothing else. */
  ghost predicate Gone(before: map<Handle, CTensor>, deletedBefore: multiset<Handle>, hs: seq<Handle>, i: nat,
                       tensors: map<Handle, CTensor>, deleted: multiset<Handle>) {
    i <= |hs| && tensors == Without(before, hs[..i]) && deleted == deletedBefore + multiset(hs[..i])
  }

  lemma GoneNext(before: map<Handle, CTensor>, deletedBefore: multiset<Handle>, hs: seq<Handle>, i: nat,
                 tensors: map<Handle, CTensor>, deleted: multiset<Handle>)
    requires Gone(before, deletedBefore, hs, i, tensors, deleted) && Distinct(before, hs) && i < |hs|
    ensures hs[i] in tensors && tensors[hs[i]] == before[hs[i]]
    ensures Gone(before, deletedBefore, hs, i + 1, tensors - {hs[i]}, deleted + multiset{hs[i]})
  {
    assert hs[..i + 1] == hs[..i] + [hs[i]];
    assert Without(before, hs[..i + 1]) == Without(before, hs[..i]) - {hs[i]};
  }

  lemma GoneAll(before: map<Handle, CTensor>, deletedBefore: multiset<Handle>, hs: seq<Handle>,
                tensors: map<Handle, CTensor>, deleted: multiset<Handle>)
    requires Gone(before, deletedBefore, hs, |hs|, tensors, deleted)
    ensures tensors == Without(before, hs) && deleted == deletedBefore + multiset(hs)
  {
    assert hs[..|hs|] == hs;
  }

  /** i of the inputs have been turned into pairs, all of them well, or input bad was the first that failed. */
  ghost predicate InputsDone(tensors: map<Handle, CTensor>, made: seq<seq<byte>>, inputs: seq<Handle>, pairs: seq<Tensor>, i: nat,
                             bad: Option<nat>, before: Status, s: Status) {
    match bad
    case None => |pairs| == i && s == before && FeedsUpTo(tensors, made, inputs, pairs, i)
    case Some(k) => |pairs| == i && k < i && FirstBad(tensors, made, inputs, pairs, k, s)
  }

  /** What one turn of the loop does with tensor t, which is fed as x. */
  ghost predicate Taken(t: CTensor, made: seq<seq<byte>>, x: Tensor, ok: bool, still: bool, before: Status, s: Status) {
    && (still ==> ok && s == before && Feeds(t, made, x))
    && (ok && !still ==> Undecodable(t, made, s))
    && (!ok ==> !still && s == before)
  }

  lemma InputsStep(tensors: map<Handle, CTensor>, made: seq<seq<byte>>, inputs: seq<Handle>, pairs: seq<Tensor>, i: nat,
                   bad: Option<nat>, before: Status, s: Status, x: Tensor, still: bool, next: Status)
    requires InputsDone(tensors, made, inputs, pairs, i, bad, before, s) && i < |inputs| && inputs[i] in tensors
    requires Taken(tensors[inputs[i]], made, x, bad == None, still, s, next)
    ensures InputsDone(tensors, made, inputs, pairs + [x], i + 1, NowBad(bad, still, i), before, next)
    ensures still <==> NowBad(bad, still, i) == None
  {
    assert forall n, k :: FeedsUpTo(tensors, made, inputs, pairs, n) && 0 <= k < n ==> (pairs + [x])[k] == pairs[k];
  }

  function NowBad(bad: Option<nat>, still: bool, i: nat): Option<nat> {
    if bad == None && !still then Some(i) else bad
  }

  /** One turn: the tensor is deleted in any case. */
  method TakeInput(heap: Heap, src: Handle, ok: bool, status: TfStatus, ghost extra: multiset<BufferId>) returns (still: bool, x: Tensor)
    requires heap.Balanced(extra) && src in heap.tensors && SignedInput(heap.tensors[src], heap.made)
    modifies heap`tensors, heap`buffers, heap`deleted, heap`destroyed, status
    ensures heap.Balanced(extra + HeldByOne(x))
    ensures heap.tensors == old(heap.tensors) - {src} && heap.deleted == old(heap.deleted) + multiset{src}
    ensures Taken(old(heap.tensors[src]), heap.made, x, ok, still, old(status.status), status.status)
  {
    still, x := ok, UNSET;
    if ok {
      still, x := MakeInput(heap, src, status, extra);
    } else {
      assert extra + HeldByOne(x) == extra;
    }
    heap.DeleteTensor(src, extra + HeldByOne(x));
  }

  /** Turns the inputs into fed tensors and deletes every one of them, also after a failure. */
  method RunInputs(heap: Heap, inputs: seq<Handle>, status: TfStatus, ghost extra: multiset<BufferId>)
    returns (ok: bool, pairs: seq<Tensor>, ghost bad: Option<nat>)
    requires heap.Balanced(extra) && Distinct(heap.tensors, inputs)
    requires forall i :: 0 <= i < |inputs| ==> SignedInput(heap.tensors[inputs[i]], heap.made)
    modifies heap`tensors, heap`buffers, heap`deleted, heap`destroyed, status
    ensures heap.Balanced(extra + HeldBy(pairs)) && (ok <==> bad == None)
    ensures heap.tensors == Without(old(heap.tensors), inputs) && heap.deleted == old(heap.deleted) + multiset(inputs)
    ensures InputsDone(old(heap.tensors), heap.made, inputs, pairs, |inputs|, bad, old(status.status), status.status)
  {
    ok, pairs, bad := true, [], None;
    ghost var tensors, deleted := heap.tensors, heap.deleted;
    assert Gone(tensors, deleted, inputs, 0, tensors, deleted);
    assert extra + HeldBy([]) == extra;
    for i := 0 to |inputs|
      invariant heap.Balanced(extra + HeldBy(pairs)) && (ok <==> bad == None)
      invariant Gone(tensors, deleted, inputs, i, heap.tensors, heap.deleted)
      invariant InputsDone(tensors, heap.made, inputs, pairs, i, bad, old(status.status), status.status)
    {
      GoneNext(tensors, deleted, inputs, i, heap.tensors, heap.deleted);
      ghost var s := status.status;
      var still, x := TakeInput(heap, inputs[i], ok, status, extra + HeldBy(pairs));
      InputsStep(tensors, heap.made, inputs, pairs, i, bad, old(status.status), s, x, still, status.status);
      HeldByAppend(pairs, x);
      assert extra + HeldBy(pairs) + HeldByOne(x) == extra + HeldBy(pairs + [x]);
      bad := NowBad(bad, still, i);
      ok, pairs := still, pairs + [x];
    }
    GoneAll(tensors, deleted, inputs, heap.tensors, heap.deleted);
  }

  // ---- The session ----

  /** Where a buffer comes from that the session keeps or returns: one that it was fed, one that it keeps
      already, or a new one. */
  datatype Source = Feed(i: nat) | Kept(k: nat) | Fresh(bytes: seq<byte>)

  datatype Action = Keep(source: Source) | Drop(k: nat)

  datatype Value = Nothing | Shared(source: Source) | Strs(ss: seq<str>)

  datatype Output = Output(dtype: DType, dims: seq<nat>, value: Value)

  /** What the session does in one run: what it starts and stops keeping, how it ends, what it returns. */
  datatype Answer = Answer(actions: seq<Action>, result: Status, outputs: seq<Output>, metadata: seq<byte>)

  /** A tensor the session may return: one without a buffer has no elements, and one of strings has as many as its shape says. */
  predicate LegalOutput(o: Output) {
    match o.value
    case Nothing => NumElements(o.dims) == 0
    case Shared(_) => !o.dtype.TfString?
    case Strs(ss) => o.dtype.TfString? && |ss| == NumElements(o.dims) && |Encoding(ss)| < TWO_64
  }

  /** b is the buffer that source stands for. */
  ghost predicate ComesFrom(b: BufferId, source: Source, fed: seq<Tensor>, kept: seq<BufferId>, made: seq<seq<byte>>) {
    match source
    case Feed(i) => i < |fed| && fed[i].content.Words? ==> b == fed[i].content.buffer
    case Kept(k) => k < |kept| ==> b == kept[k]
    case Fresh(bytes) => b < |made| && made[b] == bytes
  }

  ghost predicate Returns(x: Tensor, o: Output, fed: seq<Tensor>, kept: seq<BufferId>, made: seq<seq<byte>>) {
    && x.dtype == o.dtype && x.dims == o.dims
    && match o.value
       case Nothing => x.content == NoBuffer
       case Shared(source) => x.content.Words? && ComesFrom(x.content.buffer, source, fed, kept, made)
       case Strs(ss) => x.content == Text(ss)
  }

  ghost predicate ReturnsAll(outs: seq<Tensor>, os: seq<Output>, n: nat, fed: seq<Tensor>, kept: seq<BufferId>, made: seq<seq<byte>>) {
    n == |outs| && n <= |os| && forall i :: 0 <= i < n ==> Returns(outs[i], os[i], fed, kept, made)
  }

  lemma ReturnsGrow(outs: seq<Tensor>, os: seq<Output>, n: nat, fed: seq<Tensor>, kept: seq<BufferId>,
                    made: seq<seq<byte>>, more: seq<seq<byte>>, x: Tensor)
    requires ReturnsAll(outs, os, n, fed, kept, made) && made <= more
    requires n < |os| && Returns(x, os[n], fed, kept, more)
    ensures ReturnsAll(outs + [x], os, n + 1, fed, kept, more)
  {
    forall i | 0 <= i < n
      ensures Returns((outs + [x])[i], os[i], fed, kept, more)
    {
      assert Returns(outs[i], os[i], fed, kept, made);
    }
  }

  lemma RemoveOne(s: seq<BufferId>, k: nat)
    requires k < |s|
    ensures multiset(s) == multiset(s[..k] + s[k + 1..]) + multiset{s[k]}
  {
    assert s == s[..k] + [s[k]] + s[k + 1..];
  }

  class Session {
    /** The buffers the session keeps a reference to between runs. */
    var kept: seq<BufferId>

    constructor ()
      ensures kept == []
    {
      kept := [];
    }

    /** A new reference to the buffer that source stands for. */
    method Acquire(heap: Heap, fed: seq<Tensor>, source: Source, ghost extra: multiset<BufferId>) returns (b: BufferId)
      requires heap.Balanced(extra) && HeldBy(fed) <= extra && multiset(kept) <= extra
      modifies heap`buffers, heap`nextBuffer, heap`made
      ensures heap.Balanced(extra + multiset{b}) && ComesFrom(b, source, fed, kept, heap.made) && old(heap.made) <= heap.made
    {
      match source
      case Feed(i) =>
        if i < |fed| && fed[i].content.Words? {
          b := fed[i].content.buffer;
          HeldByContains(fed, i);
          heap.Alive(extra, b);
          heap.Ref(b, extra);
          return;
        }
        b := heap.NewBuffer([], extra);
      case Kept(k) =>
        if k < |kept| {
          b := kept[k];
          assert b in multiset(kept);
          heap.Alive(extra, b);
          heap.Ref(b, extra);
          return;
        }
        b := heap.NewBuffer([], extra);
      case Fresh(bytes) =>
        b := heap.NewBuffer(bytes, extra);
    }

    method Act(heap: Heap, fed: seq<Tensor>, action: Action, ghost extra: multiset<BufferId>)
      requires heap.Balanced(extra + multiset(kept)) && HeldBy(fed) <= extra
      modifies this, heap`buffers, heap`nextBuffer, heap`made, heap`destroyed
      ensures heap.Balanced(extra + multiset(kept)) && old(heap.made) <= heap.made
    {
      match action
      case Keep(source) =>
        var b := Acquire(heap, fed, source, extra + multiset(kept));
        assert extra + multiset(kept) + multiset{b} == extra + multiset(kept + [b]);
        kept := kept + [b];
      case Drop(k) =>
        if k < |kept| {
          RemoveOne(kept, k);
          heap.Unref(kept[k], extra + multiset(kept));
          assert extra + multiset(kept) - multiset{kept[k]} == extra + multiset(kept[..k] + kept[k + 1..]);
          kept := kept[..k] + kept[k + 1..];
        }
    }

    method MakeOutput(heap: Heap, fed: seq<Tensor>, o: Output, ghost extra: multiset<BufferId>) returns (x: Tensor)
      requires heap.Balanced(extra) && HeldBy(fed) <= extra && multiset(kept) <= extra
      modifies heap`buffers, heap`nextBuffer, heap`made
      ensures heap.Balanced(extra + HeldByOne(x)) && Returns(x, o, fed, kept, heap.made) && old(heap.made) <= heap.made
    {
      match o.value
      case Nothing =>
        x := Tensor(o.dtype, o.dims, NoBuffer);
        assert extra + HeldByOne(x) == extra;
      case Shared(source) =>
        var b := Acquire(heap, fed, source, extra);
        x := Tensor(o.dtype, o.dims, Words(b));
      case Strs(ss) =>
        x := Tensor(o.dtype, o.dims, Text(ss));
        assert extra + HeldByOne(x) == extra;
    }

    /** Any run: what it does is given by the answer. All that it is fed is alive throughout. */
    method Run(heap: Heap, fed: seq<Tensor>, answer: Answer, ghost extra: multiset<BufferId>) returns (outs: seq<Tensor>)
      requires heap.Balanced(extra + multiset(kept)) && HeldBy(fed) <= extra
      modifies this, heap`buffers, heap`nextBuffer, heap`made, heap`destroyed
      ensures heap.Balanced(extra + multiset(kept) + HeldBy(outs)) && old(heap.made) <= heap.made
      ensures ReturnsAll(outs, answer.outputs, |answer.outputs|, fed, kept, heap.made)
    {
      for i := 0 to |answer.actions|
        invariant heap.Balanced(extra + multiset(kept)) && old(heap.made) <= heap.made
      {
        Act(heap, fed, answer.actions[i], extra);
      }
      outs := MakeOutputs(heap, fed, answer.outputs, extra + multiset(kept));
    }

    method MakeOutputs(heap: Heap, fed: seq<Tensor>, os: seq<Output>, ghost extra: multiset<BufferId>) returns (outs: seq<Tensor>)
      requires heap.Balanced(extra) && HeldBy(fed) <= extra && multiset(kept) <= extra
      modifies heap`buffers, heap`nextBuffer, heap`made
      ensures heap.Balanced(extra + HeldBy(outs)) && old(heap.made) <= heap.made
      ensures ReturnsAll(outs, os, |os|, fed, kept, heap.made)
    {
      outs := [];
      assert extra + HeldBy(outs) == extra;
      for i := 0 to |os|
        invariant heap.Balanced(extra + HeldBy(outs)) && old(heap.made) <= heap.made
        invariant ReturnsAll(outs, os, i, fed, kept, heap.made)
      {
        outs := MakeNextOutput(heap, fed, os, outs, extra);
      }
    }

    /** One more output, behind those that there are. */
    method MakeNextOutput(heap: Heap, fed: seq<Tensor>, os: seq<Output>, outs: seq<Tensor>, ghost extra: multiset<BufferId>)
      returns (more: seq<Tensor>)
      requires heap.Balanced(extra + HeldBy(outs)) && HeldBy(fed) <= extra && multiset(kept) <= extra
      requires |outs| < |os| && ReturnsAll(outs, os, |outs|, fed, kept, heap.made)
      modifies heap`buffers, heap`nextBuffer, heap`made
      ensures heap.Balanced(extra + HeldBy(more)) && old(heap.made) <= heap.made
      ensures |more| == |outs| + 1 && ReturnsAll(more, os, |more|, fed, kept, heap.made)
    {
      var x := MakeOutput(heap, fed, os[|outs|], extra + HeldBy(outs));
      ReturnsGrow(outs, os, |outs|, fed, kept, old(heap.made), heap.made, x);
      HeldByAppend(outs, x);
      assert extra + HeldBy(outs) + HeldByOne(x) == extra + HeldBy(outs + [x]);
      more := outs + [x];
    }
  }

  // ---- Outputs ----

  /** A tensor the outputs can be made from: initialized, and with strings exactly if it is of strings. */
  predicate Legal(x: Tensor) {
    match x.content
    case NoBuffer => NumElements(x.dims) == 0
    case Words(_) => !x.dtype.TfString?
    case Text(ss) => x.dtype.TfString? && |ss| == NumElements(x.dims) && |Encoding(ss)| < TWO_64
  }

  /** t is the TF_Tensor for x: without elements an empty one, of strings their encoding, else one that shares the buffer. */
  ghost predicate Stands(t: CTensor, x: Tensor, made: seq<seq<byte>>) {
    && t.dtype == x.dtype && t.dims == x.dims
    && if NumElements(x.dims) == 0 then t.buffer < |made| && made[t.buffer] == [] else
       match x.content
       case NoBuffer => false
       case Words(b) => t.buffer == b
       case Text(ss) => t.buffer < |made| && made[t.buffer] == Encoding(ss)
  }

  method MakeCTensor(heap: Heap, x: Tensor, ghost extra: multiset<BufferId>) returns (h: Handle)
    requires heap.Balanced(extra) && HeldByOne(x) <= extra && Legal(x)
    modifies heap`tensors, heap`buffers, heap`nextTensor, heap`nextBuffer, heap`made
    ensures heap.Balanced(extra) && old(heap.made) <= heap.made
    ensures h == old(heap.nextTensor) && heap.nextTensor == h + 1
    ensures h in heap.tensors && heap.tensors == old(heap.tensors)[h := heap.tensors[h]] && Stands(heap.tensors[h], x, heap.made)
  {
    if NumElements(x.dims) == 0 {
      h := heap.NewTensor(x.dtype, x.dims, [], extra);
    } else if x.content.Words? {
      var b := x.content.buffer;
      heap.Alive(extra, b);
      heap.Ref(b, extra);
      h := heap.Wrap(x.dtype, x.dims, b, extra);
    } else {
      var base := EncodeStrings(x.content.ss);
      h := heap.NewTensor(x.dtype, x.dims, base[..], extra);
    }
  }

  /** Beside the tensors of before there are exactly n new ones, from handle first on. */
  ghost predicate Added(before: map<Handle, CTensor>, tensors: map<Handle, CTensor>, first: Handle, n: nat) {
    && (forall h :: h in tensors <==> h in before || first <= h < first + n)
    && (forall h :: h in before && !(first <= h < first + n) ==> tensors[h] == before[h])
  }

  lemma AddedNext(before: map<Handle, CTensor>, tensors: map<Handle, CTensor>, first: Handle, n: nat, t: CTensor)
    requires Added(before, tensors, first, n)
    ensures Added(before, tensors[first + n := t], first, n + 1)
  {
  }

  /** Output i is a new tensor for x. */
  ghost predicate StoredAt(output: Option<Handle>, tensors: map<Handle, CTensor>, made: seq<seq<byte>>, h: Handle, x: Tensor) {
    output == Some(h) && h in tensors && Stands(tensors[h], x, made)
  }

  /** The first n outputs are new tensors, one for each of outs. */
  ghost predicate Stored(outputs: seq<Option<Handle>>, tensors: map<Handle, CTensor>, made: seq<seq<byte>>, first: Handle,
                         outs: seq<Tensor>, n: nat) {
    n <= |outs| && n <= |outputs| && forall i :: 0 <= i < n ==> StoredAt(outputs[i], tensors, made, first + i, outs[i])
  }

  lemma StoredNext(before: seq<Option<Handle>>, outputs: seq<Option<Handle>>, tensors: map<Handle, CTensor>, t: CTensor,
                   made: seq<seq<byte>>, more: seq<seq<byte>>, first: Handle, outs: seq<Tensor>, n: nat)
    requires Stored(before, tensors, made, first, outs, n) && made <= more && n < |outs| && n < |before|
    requires outputs == before[n := Some(first + n)] && Stands(t, outs[n], more)
    ensures Stored(outputs, tensors[first + n := t], more, first, outs, n + 1)
  {
    var after := tensors[first + n := t];
    forall i | 0 <= i < n
      ensures StoredAt(outputs[i], after, more, first + i, outs[i])
    {
      assert StoredAt(before[i], tensors, made, first + i, outs[i]);
    }
  }

  method StoreOutput(heap: Heap, outs: seq<Tensor>, outputs: array<Option<Handle>>, ghost first: Handle, i: nat, ghost extra: multiset<BufferId>)
    requires heap.Balanced(extra) && HeldBy(outs) <= extra && i < |outs| == outputs.Length && Legal(outs[i])
    requires heap.nextTensor == first + i && Stored(outputs[..], heap.tensors, heap.made, first, outs, i)
    modifies outputs, heap`tensors, heap`buffers, heap`nextTensor, heap`nextBuffer, heap`made
    ensures heap.Balanced(extra) && old(heap.made) <= heap.made && heap.nextTensor == first + i + 1
    ensures first + i in heap.tensors && heap.tensors == old(heap.tensors)[first + i := heap.tensors[first + i]]
    ensures Stored(outputs[..], heap.tensors, heap.made, first, outs, i + 1)
  {
    HeldOneOf(outs, i);
    var h := MakeCTensor(heap, outs[i], extra);
    outputs[i] := Some(h);
    StoredNext(old(outputs[..]), outputs[..], old(heap.tensors), heap.tensors[h], old(heap.made), heap.made, first, outs, i);
  }

  method StoreOutputs(heap: Heap, outs: seq<Tensor>, outputs: array<Option<Handle>>, ghost extra: multiset<BufferId>)
    requires heap.Balanced(extra) && HeldBy(outs) <= extra && |outs| == outputs.Length
    requires forall i :: 0 <= i < |outs| ==> Legal(outs[i])
    modifies outputs, heap`tensors, heap`buffers, heap`nextTensor, heap`nextBuffer, heap`made
    ensures heap.Balanced(extra) && old(heap.made) <= heap.made
    ensures Added(old(heap.tensors), heap.tensors, old(heap.nextTensor), |outs|)
    ensures Stored(outputs[..], heap.tensors, heap.made, old(heap.nextTensor), outs, |outs|)
  {
    ghost var first, base := heap.nextTensor, heap.tensors;
    for i := 0 to |outs|
      invariant heap.Balanced(extra) && old(heap.made) <= heap.made && heap.nextTensor == first + i
      invariant Added(base, heap.tensors, first, i)
      invariant Stored(outputs[..], heap.tensors, heap.made, first, outs, i)
    {
      ghost var tensors := heap.tensors;
      StoreOutput(heap, outs, outputs, first, i, extra);
      AddedNext(base, tensors, first, i, heap.tensors[first + i]);
    }
  }

  lemma HeldOneOf(ts: seq<Tensor>, i: nat)
    requires i < |ts|
    ensures HeldByOne(ts[i]) <= HeldBy(ts)
  {
    if ts[i].content.Words? {
      HeldByContains(ts, i);
    }
  }

  // ---- One run ----

  datatype RunOptions = NoOptions | Parseable | Unparseable

  predicate LegalAnswer(answer: Answer, n: nat) {
    answer.result == OK ==> |answer.outputs| == n && forall i :: 0 <= i < n ==> LegalOutput(answer.outputs[i])
  }

  /** The output is a new tensor h, of the type and shape the session returned, and with what it returned:
      the same buffer, or the encoding of the strings. */
  ghost predicate Delivered(output: Option<Handle>, tensors: map<Handle, CTensor>, made: seq<seq<byte>>, h: Handle,
                            o: Output, fed: seq<Tensor>, kept: seq<BufferId>) {
    && output == Some(h) && h in tensors && tensors[h].dtype == o.dtype && tensors[h].dims == o.dims
    && var b := tensors[h].buffer;
       if NumElements(o.dims) == 0 then b < |made| && made[b] == [] else
       match o.value
       case Nothing => false
       case Shared(source) => ComesFrom(b, source, fed, kept, made)
       case Strs(ss) => b < |made| && made[b] == Encoding(ss)
  }

  /** An output with a zero among its dimensions is an empty tensor. Any other one has the buffer that the session
      returned, one it was fed, one it keeps or one with its bytes, or the encoding of the returned strings. */
  lemma DeliveredSpelled(output: Option<Handle>, tensors: map<Handle, CTensor>, made: seq<seq<byte>>, h: Handle,
                         o: Output, fed: seq<Tensor>, kept: seq<BufferId>)
    requires Delivered(output, tensors, made, h, o, fed, kept)
    ensures output == Some(h) && h in tensors && tensors[h].dtype == o.dtype && tensors[h].dims == o.dims
    ensures var b := tensors[h].buffer;
      if 0 in o.dims then b < |made| && made[b] == [] else
      match o.value
      case Nothing => false
      case Shared(Feed(i)) => i < |fed| && fed[i].content.Words? ==> b == fed[i].content.buffer
      case Shared(Kept(k)) => k < |kept| ==> b == kept[k]
      case Shared(Fresh(bytes)) => b < |made| && made[b] == bytes
      case Strs(ss) => b < |made| && made[b] == Encoding(ss)
  {
    NoElementsIff(o.dims);
  }

  /** A 2x3 tensor comes out with the very buffer that the session shares. */
  lemma SharedIsNotEmpty(output: Option<Handle>, tensors: map<Handle, CTensor>, made: seq<seq<byte>>, h: Handle,
                         fed: seq<Tensor>, kept: seq<BufferId>, bytes: seq<byte>)
    requires Delivered(output, tensors, made, h, Output(Plain(1), [2, 3], Shared(Fresh(bytes))), fed, kept)
    ensures tensors[h].buffer < |made| && made[tensors[h].buffer] == bytes
  {
    NoElementsIff([2, 3]);
  }

  ghost predicate DeliveredAll(outputs: seq<Option<Handle>>, tensors: map<Handle, CTensor>, made: seq<seq<byte>>, first: Handle,
                               os: seq<Output>, fed: seq<Tensor>, kept: seq<BufferId>) {
    |outputs| == |os| && forall i :: 0 <= i < |os| ==> Delivered(outputs[i], tensors, made, first + i, os[i], fed, kept)
  }

  lemma StoredDelivered(outputs: seq<Option<Handle>>, tensors: map<Handle, CTensor>, made: seq<seq<byte>>, first: Handle,
                        outs: seq<Tensor>, os: seq<Output>, fed: seq<Tensor>, kept: seq<BufferId>, before: seq<seq<byte>>)
    requires ReturnsAll(outs, os, |os|, fed, kept, before) && before <= made
    requires Stored(outputs, tensors, made, first, outs, |outs|) && |outputs| == |os|
    ensures DeliveredAll(outputs, tensors, made, first, os, fed, kept)
  {
    forall i | 0 <= i < |os|
      ensures Delivered(outputs[i], tensors, made, first + i, os[i], fed, kept)
    {
      assert Returns(outs[i], os[i], fed, kept, before);
      assert StoredAt(outputs[i], tensors, made, first + i, outs[i]);
    }
  }

  lemma ReturnedLegal(outs: seq<Tensor>, os: seq<Output>, fed: seq<Tensor>, kept: seq<BufferId>, made: seq<seq<byte>>)
    requires ReturnsAll(outs, os, |os|, fed, kept, made) && forall i :: 0 <= i < |os| ==> LegalOutput(os[i])
    ensures forall i :: 0 <= i < |outs| ==> Legal(outs[i])
  {
    forall i | 0 <= i < |outs|
      ensures Legal(outs[i])
    {
      assert Returns(outs[i], os[i], fed, kept, made) && LegalOutput(os[i]);
    }
  }

  /** The session is run at all, once the inputs are decoded; full says that there already is metadata. */
  predicate Starts(partial: bool, options: RunOptions, full: bool) {
    partial || (options != Unparseable && !full)
  }

  /** How a run ends once its inputs are decoded. */
  function RunStatus(partial: bool, options: RunOptions, full: bool, answer: Answer): Status {
    if !partial && options == Unparseable then UnparseableOptions
    else if !partial && full then NonEmptyMetadata
    else answer.result
  }

  /** Unreadable options come before metadata that is already there, and a partial run looks at neither. */
  lemma RunStatusSpelled(partial: bool, options: RunOptions, full: bool, answer: Answer)
    ensures partial ==> RunStatus(partial, options, full, answer) == answer.result
    ensures !partial && options == Unparseable ==> RunStatus(partial, options, full, answer) == UnparseableOptions
    ensures !partial && options != Unparseable && full ==> RunStatus(partial, options, full, answer) == NonEmptyMetadata
    ensures !partial && options != Unparseable && !full ==> RunStatus(partial, options, full, answer) == answer.result
    ensures Starts(partial, options, full) <==> partial || !(options == Unparseable || full)
  {
  }

  /** A run that is not partial and that the session is started for leaves the session's metadata, however it ends; any other
      leaves what there was. */
  lemma MetadataSpelled(partial: bool, options: RunOptions, data: Option<seq<byte>>, answer: Answer)
    ensures !partial && options != Unparseable && data == None ==>
      MetadataAfter(partial, options, data, answer) == Some(answer.metadata)
    ensures partial || options == Unparseable || data.Some? ==> MetadataAfter(partial, options, data, answer) == data
  {
  }

  /** The metadata after a run: written whenever the session is run, even if it fails. */
  function MetadataAfter(partial: bool, options: RunOptions, data: Option<seq<byte>>, answer: Answer): Option<seq<byte>> {
    if !partial && Starts(partial, options, data.Some?) then Some(answer.metadata) else data
  }

  /** now is the metadata after a run whose inputs were all decoded, or not. */
  predicate Recorded(now: Option<seq<byte>>, before: Option<seq<byte>>, decoded: bool, partial: bool, options: RunOptions, answer: Answer) {
    now == if decoded then MetadataAfter(partial, options, before, answer) else before
  }

  ghost predicate AllNull(outputs: seq<Option<Handle>>) {
    forall i :: 0 <= i < |outputs| ==> outputs[i] == None
  }

  /** What a finished run leaves to its caller: all outputs if it went well, none otherwise. */
  ghost predicate Finished(s: Status, outputs: seq<Option<Handle>>, base: map<Handle, CTensor>, tensors: map<Handle, CTensor>,
                           made: seq<seq<byte>>, first: Handle, answer: Answer, fed: seq<Tensor>, kept: seq<BufferId>) {
    match s
    case OK => Added(base, tensors, first, |answer.outputs|) && DeliveredAll(outputs, tensors, made, first, answer.outputs, fed, kept)
    case _ => tensors == base && AllNull(outputs)
  }

  method DeliverOutputs(heap: Heap, outs: seq<Tensor>, ghost os: seq<Output>, outputs: array<Option<Handle>>,
                        ghost fed: seq<Tensor>, ghost kept: seq<BufferId>, ghost extra: multiset<BufferId>)
    requires heap.Balanced(extra) && HeldBy(outs) <= extra && ReturnsAll(outs, os, |os|, fed, kept, heap.made)
    requires |os| == outputs.Length && forall i :: 0 <= i < |os| ==> LegalOutput(os[i])
    modifies outputs, heap`tensors, heap`buffers, heap`nextTensor, heap`nextBuffer, heap`made
    ensures heap.Balanced(extra) && old(heap.made) <= heap.made
    ensures Added(old(heap.tensors), heap.tensors, old(heap.nextTensor), |os|)
    ensures DeliveredAll(outputs[..], heap.tensors, heap.made, old(heap.nextTensor), os, fed, kept)
  {
    ReturnedLegal(outs, os, fed, kept, heap.made);
    StoreOutputs(heap, outs, outputs, extra);
    StoredDelivered(outputs[..], heap.tensors, heap.made, old(heap.nextTensor), outs, os, fed, kept, old(heap.made));
  }

  method RunHelper(heap: Heap, session: Session, partial: bool, options: RunOptions, fed: seq<Tensor>,
                   outputs: array<Option<Handle>>, metadata: TfBuffer?, status: TfStatus, answer: Answer, ghost extra: multiset<BufferId>)
    requires heap.Balanced(extra + multiset(session.kept)) && HeldBy(fed) <= extra
    requires LegalAnswer(answer, outputs.Length) && status.status == OK && AllNull(outputs[..])
    modifies heap`tensors, heap`buffers, heap`nextTensor, heap`nextBuffer, heap`made, heap`destroyed
    modifies session, outputs, metadata, status
    ensures heap.Balanced(extra + multiset(session.kept)) && old(heap.made) <= heap.made
    ensures status.status == RunStatus(partial, options, metadata != null && old(metadata.data).Some?, answer)
    ensures Finished(status.status, outputs[..], old(heap.tensors), heap.tensors, heap.made, old(heap.nextTensor), answer, fed, session.kept)
    ensures metadata != null ==> metadata.data == MetadataAfter(partial, options, old(metadata.data), answer)
    ensures !Starts(partial, options, metadata != null && old(metadata.data).Some?) ==>
      session.kept == old(session.kept) && heap.made == old(heap.made) && heap.buffers == old(heap.buffers)
  {
    if !partial {
      if options == Unparseable {
        status.status := UnparseableOptions;
        return;
      }
      if metadata != null && metadata.data.Some? {
        status.status := NonEmptyMetadata;
        return;
      }
    }
    StartRun(heap, session, partial, fed, outputs, metadata, status, answer, extra);
  }

  /** The session runs, and its results are delivered. */
  method StartRun(heap: Heap, session: Session, partial: bool, fed: seq<Tensor>, outputs: array<Option<Handle>>,
                  metadata: TfBuffer?, status: TfStatus, answer: Answer, ghost extra: multiset<BufferId>)
    requires heap.Balanced(extra + multiset(session.kept)) && HeldBy(fed) <= extra
    requires LegalAnswer(answer, outputs.Length) && status.status == OK && AllNull(outputs[..])
    modifies heap`tensors, heap`buffers, heap`nextTensor, heap`nextBuffer, heap`made, heap`destroyed
    modifies session, outputs, metadata, status
    ensures heap.Balanced(extra + multiset(session.kept)) && old(heap.made) <= heap.made
    ensures status.status == answer.result
    ensures Finished(status.status, outputs[..], old(heap.tensors), heap.tensors, heap.made, old(heap.nextTensor), answer, fed, session.kept)
    ensures metadata != null ==> metadata.data == if partial then old(metadata.data) else Some(answer.metadata)
  {
    var outs := session.Run(heap, fed, answer, extra);
    if !partial && metadata != null {
      metadata.data := Some(answer.metadata);
    }
    if answer.result != OK {
      status.status := answer.result;
    } else {
      DeliverOutputs(heap, outs, answer.outputs, outputs, fed, session.kept, extra + multiset(session.kept) + HeldBy(outs));
    }
    Destruct(heap, outs, extra + multiset(session.kept));
  }

  method RunSetup(outputs: array<Option<Handle>>, status: TfStatus)
    modifies outputs, status
    ensures status.status == OK && AllNull(outputs[..])
  {
    status.status := OK;
    for i := 0 to outputs.Length
      invariant status.status == OK
      invariant forall k :: 0 <= k < i ==> outputs[k] == None
    {
      outputs[i] := None;
    }
  }

  lemma NoStrings(n: nat, input: seq<byte>, d: Decoded)
    requires IsDecoding(n, input, d) && !d.Strings?
    ensures forall ss :: !IsDecoding(n, input, Strings(ss))
  {
    forall ss
      ensures !IsDecoding(n, input, Strings(ss))
    {
      if IsDecoding(n, input, Strings(ss)) {
        DecodingUnique(n, input, d, Strings(ss));
      }
    }
  }

  lemma BadIsNotFed(t: CTensor, made: seq<seq<byte>>, s: Status, x: Tensor)
    requires Undecodable(t, made, s)
    ensures !Feeds(t, made, x)
  {
    var d :| IsDecoding(NumElements(t.dims), made[t.buffer], d) && !d.Strings? && s == StatusOf(d);
    NoStrings(NumElements(t.dims), made[t.buffer], d);
  }

  lemma BadNotAllFed(tensors: map<Handle, CTensor>, made: seq<seq<byte>>, inputs: seq<Handle>, fed: seq<Tensor>, i: nat, s: Status)
    requires FirstBad(tensors, made, inputs, fed, i, s)
    ensures !FeedsUpTo(tensors, made, inputs, fed, |inputs|)
  {
    if i < |fed| {
      BadIsNotFed(tensors[inputs[i]], made, s, fed[i]);
    }
  }

  /** The run itself, and the end of what was fed. */
  method RunPairs(heap: Heap, session: Session, partial: bool, options: RunOptions, pairs: seq<Tensor>, outputs: array<Option<Handle>>,
                  metadata: TfBuffer?, status: TfStatus, answer: Answer, ghost others: multiset<BufferId>)
    requires heap.Balanced(others + multiset(session.kept) + HeldBy(pairs))
    requires LegalAnswer(answer, outputs.Length) && status.status == OK && AllNull(outputs[..])
    modifies heap`tensors, heap`buffers, heap`nextTensor, heap`nextBuffer, heap`made, heap`destroyed
    modifies session, outputs, metadata, status
    ensures heap.Balanced(others + multiset(session.kept)) && old(heap.made) <= heap.made
    ensures status.status == RunStatus(partial, options, metadata != null && old(metadata.data).Some?, answer)
    ensures Finished(status.status, outputs[..], old(heap.tensors), heap.tensors, heap.made, old(heap.nextTensor), answer, pairs, session.kept)
    ensures metadata != null ==> metadata.data == MetadataAfter(partial, options, old(metadata.data), answer)
    ensures !Starts(partial, options, metadata != null && old(metadata.data).Some?) ==>
      session.kept == old(session.kept) && heap.made == old(heap.made)
  {
    assert others + multiset(session.kept) + HeldBy(pairs) == others + HeldBy(pairs) + multiset(session.kept);
    RunHelper(heap, session, partial, options, pairs, outputs, metadata, status, answer, others + HeldBy(pairs));
    assert others + HeldBy(pairs) + multiset(session.kept) == others + multiset(session.kept) + HeldBy(pairs);
    Destruct(heap, pairs, others + multiset(session.kept));
  }

  /** The status of a run and what its session was fed: the first bad input decides, or else the run. */
  ghost predicate Ends(s: Status, tensors: map<Handle, CTensor>, made: seq<seq<byte>>, inputs: seq<Handle>, fed: seq<Tensor>, run: Status) {
    || (FeedsUpTo(tensors, made, inputs, fed, |inputs|) && s == run)
    || exists i :: FirstBad(tensors, made, inputs, fed, i, s)
  }

  /** TF_Run, and with partial set TF_PRun, which has neither options nor metadata. However it ends, every input is deleted once and no
      reference is lost or kept too long; others are the references of those who take no part. */
  method Run(heap: Heap, session: Session, partial: bool, options: RunOptions, inputs: seq<Handle>, outputs: array<Option<Handle>>,
             metadata: TfBuffer?, status: TfStatus, answer: Answer, ghost others: multiset<BufferId>) returns (ghost fed: seq<Tensor>)
    requires heap.Balanced(others + multiset(session.kept)) && Distinct(heap.tensors, inputs)
    requires forall i :: 0 <= i < |inputs| ==> SignedInput(heap.tensors[inputs[i]], heap.made)
    requires LegalAnswer(answer, outputs.Length)
    modifies heap, session, outputs, metadata, status
    ensures heap.Balanced(others + multiset(session.kept)) && old(heap.made) <= heap.made
    ensures heap.deleted == old(heap.deleted) + multiset(inputs)
    ensures Ends(status.status, old(heap.tensors), old(heap.made), inputs, fed,
                 RunStatus(partial, options, metadata != null && old(metadata.data).Some?, answer))
    ensures Finished(status.status, outputs[..], Without(old(heap.tensors), inputs), heap.tensors, heap.made, old(heap.nextTensor),
                     answer, fed, session.kept)
    ensures metadata != null ==> Recorded(metadata.data, old(metadata.data), FeedsUpTo(old(heap.tensors), old(heap.made), inputs, fed, |inputs|),
                                          partial, options, answer)
    ensures !FeedsUpTo(old(heap.tensors), old(heap.made), inputs, fed, |inputs|) ==>
      session.kept == old(session.kept) && heap.made == old(heap.made)
    ensures !Starts(partial, options, metadata != null && old(metadata.data).Some?) ==>
      session.kept == old(session.kept) && heap.made == old(heap.made)
  {
    RunSetup(outputs, status);
    var ok, pairs, bad := RunInputs(heap, inputs, status, others + multiset(session.kept));
    fed := pairs;
    if ok {
      RunPairs(heap, session, partial, options, pairs, outputs, metadata, status, answer, others);
    } else {
      BadNotAllFed(old(heap.tensors), old(heap.made), inputs, fed, bad.value, status.status);
      Destruct(heap, pairs, others + multiset(session.kept));
    }
  }

  method DeleteInputs(heap: Heap, inputs: seq<Handle>, ghost extra: multiset<BufferId>)
    requires heap.Balanced(extra) && Distinct(heap.tensors, inputs)
    modifies heap`tensors, heap`buffers, heap`deleted, heap`destroyed
    ensures heap.Balanced(extra)
    ensures heap.tensors == Without(old(heap.tensors), inputs) && heap.deleted == old(heap.deleted) + multiset(inputs)
  {
    ghost var tensors, deleted := heap.tensors, heap.deleted;
    assert Gone(tensors, deleted, inputs, 0, tensors, deleted);
    for i := 0 to |inputs|
      invariant heap.Balanced(extra) && Gone(tensors, deleted, inputs, i, heap.tensors, heap.deleted)
    {
      GoneNext(tensors, deleted, inputs, i, heap.tensors, heap.deleted);
      heap.DeleteTensor(inputs[i], extra);
    }
    GoneAll(tensors, deleted, inputs, heap.tensors, heap.deleted);
  }

  /** TF_SessionRun; extended is how sending the new nodes to the session ends. When that fails, the outputs
      are left as they were. */
  method SessionRun(heap: Heap, session: Session, extended: Status, options: RunOptions, inputs: seq<Handle>,
                    outputs: array<Option<Handle>>, metadata: TfBuffer?, status: TfStatus, answer: Answer,
                    ghost others: multiset<BufferId>) returns (ghost fed: seq<Tensor>)
    requires heap.Balanced(others + multiset(session.kept)) && Distinct(heap.tensors, inputs)
    requires forall i :: 0 <= i < |inputs| ==> SignedInput(heap.tensors[inputs[i]], heap.made)
    requires LegalAnswer(answer, outputs.Length)
    modifies heap, session, outputs, metadata, status
    ensures heap.Balanced(others + multiset(session.kept)) && old(heap.made) <= heap.made
    ensures heap.deleted == old(heap.deleted) + multiset(inputs)
    ensures extended != OK ==>
      status.status == extended && outputs[..] == old(outputs[..]) && heap.tensors == Without(old(heap.tensors), inputs)
    ensures extended == OK ==>
      Ends(status.status, old(heap.tensors), old(heap.made), inputs, fed,
           RunStatus(false, options, metadata != null && old(metadata.data).Some?, answer))
    ensures extended == OK ==>
      Finished(status.status, outputs[..], Without(old(heap.tensors), inputs), heap.tensors, heap.made, old(heap.nextTensor),
               answer, fed, session.kept)
    ensures extended == OK && metadata != null ==>
      Recorded(metadata.data, old(metadata.data), FeedsUpTo(old(heap.tensors), old(heap.made), inputs, fed, |inputs|), false, options, answer)
    ensures extended != OK && metadata != null ==> metadata.data == old(metadata.data)
    ensures extended != OK ==> session.kept == old(session.kept) && heap.made == old(heap.made)
    ensures !FeedsUpTo(old(heap.tensors), old(heap.made), inputs, fed, |inputs|) ==>
      session.kept == old(session.kept) && heap.made == old(heap.made)
    ensures !Starts(false, options, metadata != null && old(metadata.data).Some?) ==>
      session.kept == old(session.kept) && heap.made == old(heap.made)
  {
    if extended != OK {
      status.status := extended;
      DeleteInputs(heap, inputs, others + multiset(session.kept));
      fed := [];
      return;
    }
    fed := Run(heap, session, false, options, inputs, outputs, metadata, status, answer, others);
  }

  /** The status of an input that cannot be decoded: the offset table does not fit, or it names the first element
      without a complete record. */
  lemma UndecodableSpelled(t: CTensor, made: seq<seq<byte>>, s: Status)
    requires Undecodable(t, made, s)
    ensures var n, bytes := NumElements(t.dims), made[t.buffer];
      if |bytes| < 8 * n then s == StringsTooShort else
        s.ElementOutOfRange? && s.index < n && !HasSome(n, bytes, s.index) && forall i :: 0 <= i < s.index ==> HasSome(n, bytes, i)
  {
    var d :| IsDecoding(NumElements(t.dims), made[t.buffer], d) && !d.Strings? && s == StatusOf(d);
    if d.OutOfRange? {
      OutOfRangeIff(NumElements(t.dims), made[t.buffer], d, d.index);
    }
  }

  // ---- Over several calls ----

  /** The status is determined by the inputs and the session's answer. */
  lemma EndsOneWay(s: Status, s': Status, tensors: map<Handle, CTensor>, made: seq<seq<byte>>, inputs: seq<Handle>,
                   fed: seq<Tensor>, fed': seq<Tensor>, run: Status)
    requires Ends(s, tensors, made, inputs, fed, run) && Ends(s', tensors, made, inputs, fed', run)
    ensures s == s'
  {
    if i :| FirstBad(tensors, made, inputs, fed, i, s) {
      BadEndsOneWay(s, s', tensors, made, inputs, fed, fed', run, i);
    } else if i :| FirstBad(tensors, made, inputs, fed', i, s') {
      BadEndsOneWay(s', s, tensors, made, inputs, fed', fed, run, i);
    }
  }

  lemma BadOneWay(t: CTensor, made: seq<seq<byte>>, s: Status, s': Status)
    requires Undecodable(t, made, s) && Undecodable(t, made, s')
    ensures s == s'
  {
    var d :| IsDecoding(NumElements(t.dims), made[t.buffer], d) && !d.Strings? && s == StatusOf(d);
    var e :| IsDecoding(NumElements(t.dims), made[t.buffer], e) && !e.Strings? && s' == StatusOf(e);
    DecodingUnique(NumElements(t.dims), made[t.buffer], d, e);
  }

  lemma BadEndsOneWay(s: Status, s': Status, tensors: map<Handle, CTensor>, made: seq<seq<byte>>, inputs: seq<Handle>,
                      fed: seq<Tensor>, fed': seq<Tensor>, run: Status, i: nat)
    requires FirstBad(tensors, made, inputs, fed, i, s) && Ends(s', tensors, made, inputs, fed', run)
    ensures s == s'
  {
    if k: nat :| FirstBad(tensors, made, inputs, fed', k, s') {
      if k < i {
        BadIsNotFed(tensors[inputs[k]], made, s', fed[k]);
      } else if i < k {
        BadIsNotFed(tensors[inputs[i]], made, s, fed'[i]);
      } else {
        BadOneWay(tensors[inputs[i]], made, s, s');
      }
    } else {
      BadIsNotFed(tensors[inputs[i]], made, s, fed'[i]);
    }
  }

  /** Strings that one run delivers come out unchanged when a later run takes the tensor as input. */
  lemma StringsFedBack(output: Option<Handle>, tensors: map<Handle, CTensor>, made: seq<seq<byte>>, h: Handle, o: Output, ss: seq<str>,
                       fed: seq<Tensor>, kept: seq<BufferId>, later: seq<seq<byte>>, x: Tensor)
    requires Delivered(output, tensors, made, h, o, fed, kept) && LegalOutput(o) && o.value == Strs(ss)
    requires made <= later && Feeds(tensors[h], later, x)
    ensures x == Tensor(TfString, o.dims, Text(ss))
  {
    assert |ss| == 0 ==> Encoding(ss) == [];
    DecodingOfEncoding(ss, Strings(x.content.ss));
  }

  /** Such a tensor can always be decoded. */
  lemma DeliveredStringsDecode(output: Option<Handle>, tensors: map<Handle, CTensor>, made: seq<seq<byte>>, h: Handle, o: Output, ss: seq<str>,
                               fed: seq<Tensor>, kept: seq<BufferId>, later: seq<seq<byte>>, s: Status)
    requires Delivered(output, tensors, made, h, o, fed, kept) && LegalOutput(o) && o.value == Strs(ss)
    requires made <= later
    ensures !Undecodable(tensors[h], later, s)
  {
    assert |ss| == 0 ==> Encoding(ss) == [];
    if d :| IsDecoding(|ss|, Encoding(ss), d) && !d.Strings? {
      DecodingOfEncoding(ss, d);
    }
  }

  /** What the session is fed by reference is alive while it runs, with its bytes, although the tensors are deleted by then. */
  lemma FedIsAlive(heap: Heap, fed: seq<Tensor>, extra: multiset<BufferId>, i: nat)
    requires heap.Balanced(extra) && HeldBy(fed) <= extra && i < |fed| && fed[i].content.Words?
    ensures var b := fed[i].content.buffer;
      b in heap.buffers && b < |heap.made| && heap.buffers[b].bytes == heap.made[b]
  {
    HeldByContains(fed, i);
    heap.Alive(extra, fed[i].content.buffer);
  }
}
