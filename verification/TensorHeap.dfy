/** Tensors and their reference-counted buffers (tensorflow/c/c_api.cc, tensorflow/core/lib/core/refcount.h). */
module TensorHeap {
  import opened Arith
  import opened Coding

  type Handle = nat
  type BufferId = nat

  datatype DType = TfString | Plain(code: nat)

  /** A TF_Tensor: it owns one reference to its buffer. */
  datatype CTensor = CTensor(dtype: DType, dims: seq<nat>, buffer: BufferId)

  datatype Buffer = Buffer(bytes: seq<byte>, refs: nat)

  function NumElements(dims: seq<nat>): nat {
    if dims == [] then 1 else dims[0] * NumElements(dims[1..])
  }

  /** The number of elements is the product of the dimensions: one without any, a single one's size, and for
      dimensions put together the product. */
  lemma {:induction false} NumElementsSpelled(a: seq<nat>, b: seq<nat>, n: nat)
    ensures NumElements([]) == 1 && NumElements([n]) == n
    ensures NumElements(a + b) == NumElements(a) * NumElements(b)
  {
    assert NumElements([n]) == n * NumElements([]);
    if a == [] {
      assert a + b == b;
    } else {
      NumElementsSpelled(a[1..], b, n);
      assert (a + b)[1..] == a[1..] + b;
      Associate(a[0], NumElements(a[1..]), NumElements(b));
    }
  }

  lemma Associate(x: nat, y: nat, z: nat)
    ensures x * (y * z) == x * y * z
  {
  }

  /** A shape has no elements exactly if one of its dimensions is zero. */
  lemma {:induction false} NoElementsIff(dims: seq<nat>)
    ensures NumElements(dims) == 0 <==> 0 in dims
  {
    if dims != [] {
      NoElementsIff(dims[1..]);
      assert dims == [dims[0]] + dims[1..];
      if 0 < dims[0] && 0 < NumElements(dims[1..]) {
        MulPositive(dims[0], NumElements(dims[1..]));
      }
    }
  }

  // ---- The books ----

  ghost function Owners(tensors: map<Handle, CTensor>, b: BufferId): set<Handle> {
    set h | h in tensors && tensors[h].buffer == b
  }

  /** The reference count of b is the number of its holders, which are tensors and, outside of them, the
      multiset extra. A buffer without a holder does not exist. */
  ghost predicate CountedAt(tensors: map<Handle, CTensor>, buffers: map<BufferId, Buffer>, extra: multiset<BufferId>, b: BufferId) {
    var holders := |Owners(tensors, b)| + extra[b];
    if b in buffers then 0 < buffers[b].refs == holders else holders == 0
  }

  ghost predicate Counted(tensors: map<Handle, CTensor>, buffers: map<BufferId, Buffer>, extra: multiset<BufferId>) {
    forall b: BufferId :: CountedAt(tensors, buffers, extra, b)
  }

  /** The buffers after one reference to b is dropped: the last one destroys b. */
  function Dropped(buffers: map<BufferId, Buffer>, b: BufferId): map<BufferId, Buffer>
    requires b in buffers && 0 < buffers[b].refs
  {
    if buffers[b].refs == 1 then buffers - {b} else buffers[b := buffers[b].(refs := buffers[b].refs - 1)]
  }

  lemma CountedRef(tensors: map<Handle, CTensor>, buffers: map<BufferId, Buffer>, extra: multiset<BufferId>, b: BufferId)
    requires Counted(tensors, buffers, extra) && b in buffers
    ensures Counted(tensors, buffers[b := buffers[b].(refs := buffers[b].refs + 1)], extra + multiset{b})
  {
    var after := buffers[b := buffers[b].(refs := buffers[b].refs + 1)];
    forall c: BufferId
      ensures CountedAt(tensors, after, extra + multiset{b}, c)
    {
      assert CountedAt(tensors, buffers, extra, c);
    }
  }

  lemma CountedUnref(tensors: map<Handle, CTensor>, buffers: map<BufferId, Buffer>, extra: multiset<BufferId>, b: BufferId)
    requires Counted(tensors, buffers, extra) && b in extra
    ensures b in buffers && 0 < buffers[b].refs
    ensures Counted(tensors, Dropped(buffers, b), extra - multiset{b})
  {
    assert CountedAt(tensors, buffers, extra, b);
    var after := Dropped(buffers, b);
    forall c: BufferId
      ensures CountedAt(tensors, after, extra - multiset{b}, c)
    {
      assert CountedAt(tensors, buffers, extra, c);
    }
  }

  lemma CountedNew(tensors: map<Handle, CTensor>, buffers: map<BufferId, Buffer>, extra: multiset<BufferId>, b: BufferId, bytes: seq<byte>)
    requires Counted(tensors, buffers, extra) && b !in buffers
    ensures Counted(tensors, buffers[b := Buffer(bytes, 1)], extra + multiset{b})
  {
    var after := buffers[b := Buffer(bytes, 1)];
    forall c: BufferId
      ensures CountedAt(tensors, after, extra + multiset{b}, c)
    {
      assert CountedAt(tensors, buffers, extra, c);
    }
  }

  lemma OwnersInserted(tensors: map<Handle, CTensor>, h: Handle, t: CTensor, b: BufferId)
    requires h !in tensors
    ensures |Owners(tensors[h := t], b)| == |Owners(tensors, b)| + (if b == t.buffer then 1 else 0)
  {
    assert Owners(tensors[h := t], b) == Owners(tensors, b) + (if b == t.buffer then {h} else {});
  }

  /** A new tensor takes over a reference, and a deleted one leaves it over. */
  lemma CountedAttach(tensors: map<Handle, CTensor>, buffers: map<BufferId, Buffer>, extra: multiset<BufferId>, h: Handle, t: CTensor)
    requires h !in tensors
    ensures Counted(tensors, buffers, extra + multiset{t.buffer}) <==> Counted(tensors[h := t], buffers, extra)
  {
    var more, after := extra + multiset{t.buffer}, tensors[h := t];
    forall b: BufferId
      ensures CountedAt(tensors, buffers, more, b) <==> CountedAt(after, buffers, extra, b)
    {
      OwnersInserted(tensors, h, t, b);
    }
    if Counted(tensors, buffers, more) {
      assert forall b: BufferId :: CountedAt(tensors, buffers, more, b) ==> CountedAt(after, buffers, extra, b);
    }
  }

  /** Buffer b was made once, keeps its bytes, and is destroyed once, when it leaves the heap. */
  ghost predicate BufferRecorded(buffers: map<BufferId, Buffer>, made: seq<seq<byte>>, destroyed: multiset<BufferId>, b: BufferId) {
    if b in buffers then b < |made| && buffers[b].bytes == made[b] && destroyed[b] == 0
    else destroyed[b] == if b < |made| then 1 else 0
  }

  ghost predicate BuffersRecorded(buffers: map<BufferId, Buffer>, made: seq<seq<byte>>, destroyed: multiset<BufferId>) {
    forall b: BufferId :: BufferRecorded(buffers, made, destroyed, b)
  }

  lemma RecordDropped(buffers: map<BufferId, Buffer>, made: seq<seq<byte>>, destroyed: multiset<BufferId>, b: BufferId)
    requires BuffersRecorded(buffers, made, destroyed) && b in buffers && 0 < buffers[b].refs
    ensures BuffersRecorded(Dropped(buffers, b), made, if buffers[b].refs == 1 then destroyed + multiset{b} else destroyed)
  {
    var after, gone := Dropped(buffers, b), if buffers[b].refs == 1 then destroyed + multiset{b} else destroyed;
    forall c: BufferId
      ensures BufferRecorded(after, made, gone, c)
    {
      assert BufferRecorded(buffers, made, destroyed, c);
    }
  }

  lemma RecordMade(buffers: map<BufferId, Buffer>, made: seq<seq<byte>>, destroyed: multiset<BufferId>, bytes: seq<byte>)
    requires BuffersRecorded(buffers, made, destroyed)
    ensures |made| !in buffers && BuffersRecorded(buffers[|made| := Buffer(bytes, 1)], made + [bytes], destroyed)
  {
    assert BufferRecorded(buffers, made, destroyed, |made|);
    var after := buffers[|made| := Buffer(bytes, 1)];
    forall c: BufferId
      ensures BufferRecorded(after, made + [bytes], destroyed, c)
    {
      assert BufferRecorded(buffers, made, destroyed, c);
    }
  }

  lemma RecordRef(buffers: map<BufferId, Buffer>, made: seq<seq<byte>>, destroyed: multiset<BufferId>, b: BufferId)
    requires BuffersRecorded(buffers, made, destroyed) && b in buffers
    ensures BuffersRecorded(buffers[b := buffers[b].(refs := buffers[b].refs + 1)], made, destroyed)
  {
    var after := buffers[b := buffers[b].(refs := buffers[b].refs + 1)];
    forall c: BufferId
      ensures BufferRecorded(after, made, destroyed, c)
    {
      assert BufferRecorded(buffers, made, destroyed, c);
    }
  }

  /** Tensor h was issued once, and is deleted once, when it leaves the heap. */
  ghost predicate TensorRecorded(tensors: map<Handle, CTensor>, next: Handle, deleted: multiset<Handle>, h: Handle) {
    if h in tensors then h < next && deleted[h] == 0
    else deleted[h] == if h < next then 1 else 0
  }

  ghost predicate TensorsRecorded(tensors: map<Handle, CTensor>, next: Handle, deleted: multiset<Handle>) {
    forall h: Handle :: TensorRecorded(tensors, next, deleted, h)
  }

  lemma RecordDeleted(tensors: map<Handle, CTensor>, next: Handle, deleted: multiset<Handle>, h: Handle)
    requires TensorsRecorded(tensors, next, deleted) && h in tensors
    ensures TensorsRecorded(tensors - {h}, next, deleted + multiset{h})
  {
    assert TensorRecorded(tensors, next, deleted, h);
    var after := tensors - {h};
    forall k: Handle
      ensures TensorRecorded(after, next, deleted + multiset{h}, k)
    {
      assert TensorRecorded(tensors, next, deleted, k);
    }
  }

  lemma RecordIssued(tensors: map<Handle, CTensor>, next: Handle, deleted: multiset<Handle>, t: CTensor)
    requires TensorsRecorded(tensors, next, deleted)
    ensures next !in tensors && TensorsRecorded(tensors[next := t], next + 1, deleted)
  {
    assert TensorRecorded(tensors, next, deleted, next);
    var after, following := tensors[next := t], next + 1;
    forall k: Handle
      ensures TensorRecorded(after, following, deleted, k)
    {
      assert TensorRecorded(tensors, next, deleted, k);
    }
  }

  // ---- The heap ----

  class Heap {
    var tensors: map<Handle, CTensor>
    var buffers: map<BufferId, Buffer>
    var nextTensor: Handle
    var nextBuffer: BufferId

    /** The bytes of every buffer ever made, and what was released: tensors by TF_DeleteTensor, buffers by their deallocators. */
    ghost var made: seq<seq<byte>>
    ghost var deleted: multiset<Handle>
    ghost var destroyed: multiset<BufferId>

    constructor ()
      ensures Balanced(multiset{}) && tensors == map[] && made == []
    {
      tensors, buffers, nextTensor, nextBuffer := map[], map[], 0, 0;
      made, deleted, destroyed := [], multiset{}, multiset{};
    }

    /** The books balance, with the references extra held outside of the tensors. */
    ghost predicate Balanced(extra: multiset<BufferId>)
      reads this
    {
      && nextBuffer == |made|
      && Counted(tensors, buffers, extra)
      && BuffersRecorded(buffers, made, destroyed)
      && TensorsRecorded(tensors, nextTensor, deleted)
    }

    /** A buffer with a holder is alive, with its bytes. */
    lemma Alive(extra: multiset<BufferId>, b: BufferId)
      requires Balanced(extra) && (b in extra || b in buffers || exists h :: h in tensors && tensors[h].buffer == b)
      ensures b in buffers && 0 < buffers[b].refs && b < |made| && buffers[b].bytes == made[b]
    {
      assert CountedAt(tensors, buffers, extra, b) && BufferRecorded(buffers, made, destroyed, b);
      if h :| h in tensors && tensors[h].buffer == b {
        assert h in Owners(tensors, b);
      }
    }

    /** A buffer is alive exactly while somebody holds it; otherwise it was destroyed, once, or never made. */
    lemma AliveIff(extra: multiset<BufferId>, b: BufferId)
      requires Balanced(extra)
      ensures b in buffers <==> b in extra || exists h :: h in tensors && tensors[h].buffer == b
      ensures destroyed[b] == if b in buffers || |made| <= b then 0 else 1
    {
      assert CountedAt(tensors, buffers, extra, b) && BufferRecorded(buffers, made, destroyed, b);
      if b in extra || exists h :: h in tensors && tensors[h].buffer == b {
        Alive(extra, b);
      } else {
        assert Owners(tensors, b) == {};
      }
    }

    method Ref(b: BufferId, ghost extra: multiset<BufferId>)
      requires Balanced(extra) && b in buffers
      modifies this`buffers
      ensures Balanced(extra + multiset{b})
    {
      CountedRef(tensors, buffers, extra, b);
      RecordRef(buffers, made, destroyed, b);
      buffers := buffers[b := buffers[b].(refs := buffers[b].refs + 1)];
    }

    /** Drops a reference; the last one destroys the buffer. */
    method Unref(b: BufferId, ghost extra: multiset<BufferId>)
      requires Balanced(extra) && b in extra
      modifies this`buffers, this`destroyed
      ensures Balanced(extra - multiset{b})
    {
      CountedUnref(tensors, buffers, extra, b);
      RecordDropped(buffers, made, destroyed, b);
      if buffers[b].refs == 1 {
        buffers := buffers - {b};
        destroyed := destroyed + multiset{b};
      } else {
        buffers := buffers[b := buffers[b].(refs := buffers[b].refs - 1)];
      }
    }

    method NewBuffer(bytes: seq<byte>, ghost extra: multiset<BufferId>) returns (b: BufferId)
      requires Balanced(extra)
      modifies this`buffers, this`nextBuffer, this`made
      ensures Balanced(extra + multiset{b})
      ensures b == |old(made)| && made == old(made) + [bytes]
    {
      b := nextBuffer;
      RecordMade(buffers, made, destroyed, bytes);
      CountedNew(tensors, buffers, extra, b, bytes);
      buffers, nextBuffer := buffers[b := Buffer(bytes, 1)], nextBuffer + 1;
      made := made + [bytes];
    }

    /** A new tensor that takes over a reference to b. */
    method Wrap(dtype: DType, dims: seq<nat>, b: BufferId, ghost extra: multiset<BufferId>) returns (h: Handle)
      requires Balanced(extra + multiset{b})
      modifies this`tensors, this`nextTensor
      ensures Balanced(extra)
      ensures h == old(nextTensor) && nextTensor == h + 1 && tensors == old(tensors)[h := CTensor(dtype, dims, b)]
    {
      h := nextTensor;
      RecordIssued(tensors, nextTensor, deleted, CTensor(dtype, dims, b));
      CountedAttach(tensors, buffers, extra, h, CTensor(dtype, dims, b));
      tensors, nextTensor := tensors[h := CTensor(dtype, dims, b)], h + 1;
    }

    method NewTensor(dtype: DType, dims: seq<nat>, bytes: seq<byte>, ghost extra: multiset<BufferId>) returns (h: Handle)
      requires Balanced(extra)
      modifies this`tensors, this`buffers, this`nextTensor, this`nextBuffer, this`made
      ensures Balanced(extra) && made == old(made) + [bytes]
      ensures h == old(nextTensor) && nextTensor == h + 1 && tensors == old(tensors)[h := CTensor(dtype, dims, |old(made)|)]
    {
      var b := NewBuffer(bytes, extra);
      h := Wrap(dtype, dims, b, extra);
    }

    /** Deletes the tensor and leaves its reference over. */
    method Unwrap(h: Handle, ghost extra: multiset<BufferId>) returns (b: BufferId)
      requires Balanced(extra) && h in tensors
      modifies this`tensors, this`deleted
      ensures Balanced(extra + multiset{b})
      ensures b == old(tensors[h].buffer) && tensors == old(tensors) - {h} && deleted == old(deleted) + multiset{h}
    {
      b := tensors[h].buffer;
      assert (tensors - {h})[h := tensors[h]] == tensors;
      CountedAttach(tensors - {h}, buffers, extra, h, tensors[h]);
      RecordDeleted(tensors, nextTensor, deleted, h);
      tensors := tensors - {h};
      deleted := deleted + multiset{h};
    }

    /** Releases the tensor and its reference to the buffer. */
    method DeleteTensor(h: Handle, ghost extra: multiset<BufferId>)
      requires Balanced(extra) && h in tensors
      modifies this`tensors, this`buffers, this`deleted, this`destroyed
      ensures Balanced(extra) && tensors == old(tensors) - {h} && deleted == old(deleted) + multiset{h}
    {
      var b := Unwrap(h, extra);
      Unref(b, extra + multiset{b});
      assert extra + multiset{b} - multiset{b} == extra;
    }
  }

  /** The tensors and the other references decide which buffers are alive, and all their reference counts. */
  lemma CountsDetermined(tensors: map<Handle, CTensor>, extra: multiset<BufferId>, made: seq<seq<byte>>,
                         buffers: map<BufferId, Buffer>, destroyed: multiset<BufferId>,
                         others: map<BufferId, Buffer>, otherDestroyed: multiset<BufferId>)
    requires Counted(tensors, buffers, extra) && BuffersRecorded(buffers, made, destroyed)
    requires Counted(tensors, others, extra) && BuffersRecorded(others, made, otherDestroyed)
    ensures buffers == others && destroyed == otherDestroyed
  {
    forall b: BufferId
      ensures b in buffers <==> b in others
      ensures b in buffers ==> buffers[b] == others[b]
      ensures destroyed[b] == otherDestroyed[b]
    {
      assert CountedAt(tensors, buffers, extra, b) && CountedAt(tensors, others, extra, b);
      assert BufferRecorded(buffers, made, destroyed, b) && BufferRecorded(others, made, otherDestroyed, b);
    }
  }
}
