# Models of the Android TensorFlow demo's core

This project models the stateful and arithmetic core of the TensorFlow r0.10 Android demo and of the
TensorFlow sources it carries, and proves what that code promises. Each module follows one component.

- **Coding, StringTensor** (`c_api.cc`, `coding.cc`): the byte layout of string tensors. The encoder fills a
  buffer through two moving cursors; both are proved against the layout as a value, and the decoder inverts it.
- **OpGraph, SessionExtension, GraphLifetime** (`c_api.cc`): a graph that several sessions share. The methods of
  the objects are proved against functions on their state; the protocols between threads are state machines, one
  step for each critical section or unlocked action, with an invariant for every interleaving.
- **TensorHeap, RunEntry** (`c_api.cc`, `refcount.h`): tensors that own references to counted buffers, and the entry points
  `TF_Run`, `TF_PRun` and `TF_SessionRun`. The session is an arbitrary partner: it may keep, drop, share and make
  buffers. The books that are kept balanced say that every count is the number of holders.
- **Layout** (`dnn.cc`): dimensions and strides of a batch under four layouts, for every rank.
- **TempMemory, TempMemoryManager** (`temporary_memory_manager.cc`, `temporary_device_memory.cc`): temporary device
  memory, allocated outside the lock and freed inside it, under reuse of addresses.
- **Yuv, Argb, ImageRoundTrip** (`rgb2yuv.cc`, `yuv2rgb.cc`): the image converters, with their loops and cursors.
- **Occupancy** (`device_description.cc`): the occupancy of a GPU core and the search for a register limit.
- **TopN** (`tensorflow_jni.cc`) and **SubStreams** (`stream.cc`): top-N selection and the pool of sub-streams.
- **Arith, Wrappers**: shared arithmetic facts and the option type.

## Where the code does not do what it says

- `MarkFinalized` takes a generation and does not look at it. A handle destroyed after its address was given away
  finalizes the new owner's memory: `TempMemory.LateDestructorTakesMemory`. `TempMemory.LosesRecordIff` says when memory is lost.
- The register search is called a search for the target occupancy, and finds the true maximum on every device only under the
  condition of `Occupancy.SearchExactIff`. With a register granularity below the warp size it divides by zero unless the limit
  itself meets the target: `Occupancy.SearchDividesByZero`.
- The encoder rounds odd widths up when it numbers chroma blocks; the decoders multiply by the width itself. On odd sizes
  the round trip fails: `ImageRoundTrip.GrayRoundTripIff`. The luma cursor of the half-size converter drifts on odd widths:
  `Argb.HalfCursorsOnBlockIff`.
- Blocking on a stream reports the failure of a sub-stream while it holds the mutex that reporting takes, and so never returns:
  `SubStreams.FailedStreamHangsBlock`. `SubStreams.UsableIff` says when a stream stays usable.
- Blocking on a stream makes streams available that are still held. A later return through an old pointer can then share
  a stream: `SubStreams.StaleReturnSharesStream`; exactly when it does, says `SubStreams.ReturnSharesNothingIff`.
- `GetTopN` compares a signed count with an unsigned size (`TopN.NegativeCountKeepsAll`) and reverses also what its
  output vector held before.

## Model

| member | source | states |
|---|---|---|
| Coding.EncodeVarint64 | Android/jni-build/jni/include/tensorflow/core/lib/core/coding.cc:110-119 | the bytes written are the base-128 encoding, the cursor ends right behind them, and nothing else in the buffer changes |
| Coding.VarintLength | Android/jni-build/jni/include/tensorflow/core/lib/core/coding.cc:127-134 | the length counted without writing is the number of bytes the encoder writes |
| Coding.GetVarint64Ptr | Android/jni-build/jni/include/tensorflow/core/lib/core/coding.cc:166-181 | reads at most ten bytes, drops the bits shifted past bit 63, and finds nothing when the limit or the tenth byte comes first |
| Coding.ParseStoredVarint | Android/jni-build/jni/include/tensorflow/core/lib/core/coding.cc:110-181 | wherever a 64-bit value's encoding is stored, reading gives the value back and stops right behind it |
| Coding.ParseCutVarint | Android/jni-build/jni/include/tensorflow/core/lib/core/coding.cc:166-181 | no value is read from an encoding that is cut short |
| Coding.VarintSpelled | Android/jni-build/jni/include/tensorflow/core/lib/core/coding.cc:110-119 | every byte of an encoding but the last has its top bit set, the low seven bits are the base-128 digits of the value, least significant first, and the last digit is not a wasted zero |
| Coding.Varint300 | Android/jni-build/jni/include/tensorflow/core/lib/core/coding.cc:110-119 | 300 is written as the bytes 0xac and 0x02 |
| Coding.VarintIsShortest | Android/jni-build/jni/include/tensorflow/core/lib/core/coding.cc:110-134 | no varint of the same value is shorter than the encoding, and a varint is the encoding exactly if it is one byte or does not end in a zero byte |
| Coding.ReadSpelled | Android/jni-build/jni/include/tensorflow/core/lib/core/coding.cc:166-181 | a value is read exactly where a varint of at most ten bytes stands, and is its base-128 value cut to 64 bits |
| Coding.Fixed64Value | Android/jni-build/jni/include/tensorflow/c/c_api.cc:345-347 | a 64-bit word stored in an offset slot is loaded unchanged |
| StringTensor.EncodedSize | Android/jni-build/jni/include/tensorflow/c/c_api.cc:332-340 | the first pass counts exactly the bytes of the encoding |
| StringTensor.EncodeStrings | Android/jni-build/jni/include/tensorflow/c/c_api.cc:331-354 | filling through the two moving cursors produces the encoding, and the data cursor ends exactly at the size of the first pass, so the CHECK_EQ never fires |
| StringTensor.RecordsTile | Android/jni-build/jni/include/tensorflow/c/c_api.cc:344-353 | the records tile the data region: each begins where the one before ends, the last ends at the end, and each holds its length and its bytes |
| StringTensor.EncodingSpelled | Android/jni-build/jni/include/tensorflow/c/c_api.cc:331-354 | behind the offset slots, at the offset that an element's slot holds, are the shortest varint of its length and its bytes |
| StringTensor.EncodingHasNoGaps | Android/jni-build/jni/include/tensorflow/c/c_api.cc:332-354 | the first offset is 0, each record begins right behind the one before, and the last ends with the buffer |
| StringTensor.DecodeStrings | Android/jni-build/jni/include/tensorflow/c/c_api.cc:297-328 | decoding returns every element, or the first element that is out of range, or that the offset table does not fit |
| StringTensor.DecodingUnique | Android/jni-build/jni/include/tensorflow/c/c_api.cc:297-328 | a buffer decodes in one way only, so the outcome is a function of the buffer |
| StringTensor.DecodesIff | Android/jni-build/jni/include/tensorflow/c/c_api.cc:297-328 | whatever the order of the records, and whether they are shared or leave gaps, a buffer decodes to given strings exactly if the offset table fits and every slot points to a complete record of its string |
| StringTensor.OutOfRangeIff | Android/jni-build/jni/include/tensorflow/c/c_api.cc:317-325 | an element is reported exactly if it is the first whose slot points to no complete record |
| StringTensor.EncodedSigned | Android/jni-build/jni/include/tensorflow/c/c_api.cc:314-320 | in an encoding below 2^63 bytes no offset or length changes its value in the casts to signed integers |
| StringTensor.DecodingOfEncoding | Android/jni-build/jni/include/tensorflow/c/c_api.cc:297-367 | no decoding of an encoded tensor can be anything but the strings that were encoded, empty ones included |
| StringTensor.RoundTrip | Android/jni-build/jni/include/tensorflow/c/c_api.cc:297-367 | encoding, then decoding, gives back exactly the strings, for every sequence of strings |
| StringTensor.CutEncodingFails | Android/jni-build/jni/include/tensorflow/c/c_api.cc:297-328 | every proper prefix of the encoding of one or more strings is refused, at the last element at the latest |
| OpGraph.Graph.FinishOperation | Android/jni-build/jni/include/tensorflow/c/c_api.cc:906-924 | a new name whose node builds is appended and indexed; a duplicate or a failed build changes nothing |
| OpGraph.FinishKeepsValid | Android/jni-build/jni/include/tensorflow/c/c_api.cc:906-924 | index and node list keep agreeing; an operation is created exactly if the name is new and the node builds; a refusal leaves both as they were; nodes are only appended |
| OpGraph.Graph.OperationByName | Android/jni-build/jni/include/tensorflow/c/c_api.cc:1132-1140 | the lookup reads the index |
| OpGraph.Graph.NextOperation | Android/jni-build/jni/include/tensorflow/c/c_api.cc:1142-1163 | the cursor passes over source, sink and removed nodes only, and stops at the next node or past the end |
| OpGraph.Graph.Enumerate | Android/jni-build/jni/include/tensorflow/c/c_api.cc:1142-1163 | the client's loop from position 0 ends, and visits the operations of the graph in id order |
| OpGraph.OpsIncreasing | Android/jni-build/jni/include/tensorflow/c/c_api.cc:1142-1163 | the operations of a stretch of the node list have increasing ids inside it, so no operation comes twice |
| OpGraph.OpsConsecutive | Android/jni-build/jni/include/tensorflow/c/c_api.cc:1142-1163 | without removed nodes, position k of an enumeration is the node with id k + 2 |
| OpGraph.NextExtends | Android/jni-build/jni/include/tensorflow/c/c_api.cc:1152-1159 | one call extends what has been seen by exactly the operation it returns, and by nothing at the end |
| OpGraph.LookupAgreesWithEnumeration | Android/jni-build/jni/include/tensorflow/c/c_api.cc:906-1163 | a name is found exactly if the enumeration visits an operation of that name; both give the same operation; names are unique |
| OpGraph.EnumerationIsComplete | Android/jni-build/jni/include/tensorflow/c/c_api.cc:1142-1163 | however operations are added between the calls, an enumeration up to its first null visits the operations 2, 3, 4, ... in order, and the null comes only when it has visited every operation there is |
| OpGraph.EnumerationMissesExactly | Android/jni-build/jni/include/tensorflow/c/c_api.cc:1142-1163 | an enumeration that goes on after a null still visits in id order, none twice, and of the operations its cursor has passed it misses exactly those later created at an id where it got a null |
| OpGraph.GoingOnMisses | Android/jni-build/jni/include/tensorflow/c/c_api.cc:1142-1163 | a concrete enumeration that misses an operation in this way |
| SessionExtension.Session.CollectBatch | Android/jni-build/jni/include/tensorflow/c/c_api.cc:1243-1249 | the batch is the operations from the session's mark up to the end of the node list, in id order |
| SessionExtension.Session.ExtendGraph | Android/jni-build/jni/include/tensorflow/c/c_api.cc:1230-1265 | after success the session has been sent all operations of the graph, and after a refusal its mark stands where it was |
| SessionExtension.InvAlways | Android/jni-build/jni/include/tensorflow/c/c_api.cc:1230-1265 | in every interleaving of threads that add operations and extend sessions, a session's mark, its accepted batches, its lock and the batches under way agree |
| SessionExtension.SentExactlyOnceInOrder | Android/jni-build/jni/include/tensorflow/c/c_api.cc:1230-1265 | after any run the accepted batches of a session, one after the other, are exactly the operations below its mark, in order, each once |
| SessionExtension.TrueMeansSent | Android/jni-build/jni/include/tensorflow/c/c_api.cc:1230-1265 | when the helper returns true, every operation finished before the call is among those sent |
| SessionExtension.RefusalChangesNothing | Android/jni-build/jni/include/tensorflow/c/c_api.cc:1252-1259 | after a refused batch the session stands where it stood, and the refused batch is still what comes next up to the old end |
| SessionExtension.RefusedIsSentAgain | Android/jni-build/jni/include/tensorflow/c/c_api.cc:1230-1265 | whatever happens after a refusal, as long as nothing else was accepted the batch being sent to the session begins with the refused one |
| OpGraph.Graph.RequestDelete | Android/jni-build/jni/include/tensorflow/c/c_api.cc:1124-1130 | the verdict computed under the lock says exactly that the graph must go from then on: deletion is requested and no session is left; the step is the one of the lifetime protocol |
| OpGraph.Graph.DropSession | Android/jni-build/jni/include/tensorflow/c/c_api.cc:1217-1222 | the verdict says exactly that the graph must go from then on, and the step is the one of the lifetime protocol |
| GraphLifetime.InvAlways | Android/jni-build/jni/include/tensorflow/c/c_api.cc:1124-1225 | the count, the threads under way and the freed graph agree in every interleaving of clients that keep the rules |
| GraphLifetime.StepTouchesLiveGraph | Android/jni-build/jni/include/tensorflow/c/c_api.cc:1124-1225 | no step of the code touches the graph after it was freed |
| GraphLifetime.FreedOnceAndLast | Android/jni-build/jni/include/tensorflow/c/c_api.cc:1124-1225 | at most one thread computes `del` as true; the graph is freed at most once, only after deletion was requested and every session let go, and is not touched afterwards |
| GraphLifetime.FreedIffAllGone | Android/jni-build/jni/include/tensorflow/c/c_api.cc:1124-1225 | once all calls have returned, the graph was freed, once, exactly if it was deleted and no session remains |
| GraphLifetime.TwoDeletesFreeTwice | Android/jni-build/jni/include/tensorflow/c/c_api.cc:1124-1130 | the rule of one deletion is needed: two deletions of a graph without sessions free it twice |
| GraphLifetime.LateSessionTouchesFreedGraph | Android/jni-build/jni/include/tensorflow/c/c_api.cc:1192-1203 | the rule of no session after deletion is needed: such a session is counted on a freed graph |
| TensorHeap.Heap.Ref | Android/jni-build/jni/include/tensorflow/core/lib/core/refcount.h:81-84 | the books balance with one more holder |
| TensorHeap.Heap.Unref | Android/jni-build/jni/include/tensorflow/core/lib/core/refcount.h:86-98 | the books balance with one holder less, and the last holder's leaving destroys the buffer |
| TensorHeap.Heap.NewTensor | Android/jni-build/jni/include/tensorflow/c/c_api.cc:135-168 | a new tensor is the one holder of a new buffer |
| TensorHeap.Heap.DeleteTensor | Android/jni-build/jni/include/tensorflow/c/c_api.cc:170-173 | the tensor is released once and its reference dropped; the books balance |
| TensorHeap.CountedUnref | Android/jni-build/jni/include/tensorflow/core/lib/core/refcount.h:86-98 | with exact counts a buffer has no holder left exactly when its last reference is dropped |
| TensorHeap.CountedAttach | Android/jni-build/jni/include/tensorflow/c/c_api.cc:129-173 | a tensor may take over a reference, or leave it over, without any count changing |
| TensorHeap.Heap.AliveIff | Android/jni-build/jni/include/tensorflow/core/lib/core/refcount.h:86-98 | a buffer is alive exactly while a tensor or somebody else holds it, and otherwise was destroyed exactly once or never made |
| TensorHeap.NumElementsSpelled | Android/jni-build/jni/include/tensorflow/core/framework/tensor_shape.cc:88-96 | a shape has one element without dimensions, a dimension's size with one, and for dimensions put together the product |
| TensorHeap.NoElementsIff | Android/jni-build/jni/include/tensorflow/core/framework/tensor_shape.cc:210-212 | a shape has no elements exactly if one of its dimensions is zero |
| TensorHeap.CountsDetermined | Android/jni-build/jni/include/tensorflow/core/lib/core/refcount.h:28-61 | the tensors and the other references decide which buffers are alive, every count, and what was destroyed |
| RunEntry.RunSetup | Android/jni-build/jni/include/tensorflow/c/c_api.cc:402-408 | status OK and all outputs null, whatever they were |
| RunEntry.RunInputs | Android/jni-build/jni/include/tensorflow/c/c_api.cc:410-434 | every input is deleted exactly once, also behind one that cannot be decoded; the first such input decides the status; every other is fed as its buffer or its strings |
| RunEntry.DeletableIff | Android/jni-build/jni/include/tensorflow/c/c_api.cc:414-432 | deleting the inputs one after the other meets a live tensor each time exactly if they are live and all different |
| RunEntry.FedIsAlive | Android/jni-build/jni/include/tensorflow/core/framework/tensor.cc:412-416 | a buffer fed by reference is alive, with its bytes, while the session runs, although its tensor has been deleted |
| RunEntry.StringsFedBack | Android/jni-build/jni/include/tensorflow/c/c_api.cc:297-434 | strings that one run delivers are fed unchanged when a later run takes the tensor as input |
| RunEntry.DeliveredStringsDecode | Android/jni-build/jni/include/tensorflow/c/c_api.cc:297-434 | a string tensor delivered by a run never fails to decode as an input |
| RunEntry.StoreOutputs | Android/jni-build/jni/include/tensorflow/c/c_api.cc:488-506 | every output is a new tensor: empty, sharing the returned buffer, or the encoding of the returned strings |
| RunEntry.DeliveredSpelled | Android/jni-build/jni/include/tensorflow/c/c_api.cc:488-506 | an output with a zero dimension is an empty tensor; any other one has the buffer that the session returned, or the encoding of the returned strings; type and shape are the returned ones |
| RunEntry.SharedIsNotEmpty | Android/jni-build/jni/include/tensorflow/c/c_api.cc:497-502 | a concrete 2x3 tensor comes out with the very bytes that the session returned |
| RunEntry.RunStatusSpelled | Android/jni-build/jni/include/tensorflow/c/c_api.cc:449-462 | unreadable options come before metadata that is already there, and a partial run looks at neither |
| RunEntry.MetadataSpelled | Android/jni-build/jni/include/tensorflow/c/c_api.cc:467-478 | metadata is written whenever the session was run with options, however the run ends, and is left alone otherwise |
| RunEntry.UndecodableSpelled | Android/jni-build/jni/include/tensorflow/c/c_api.cc:302-326 | the status of an input that cannot be decoded: the table does not fit, or the first element without a complete record |
| RunEntry.RunHelper | Android/jni-build/jni/include/tensorflow/c/c_api.cc:436-507 | how unreadable options, metadata that is already there and the session's own failure end a run; all outputs are set after success and none otherwise; metadata is written whenever the session ran, and when it is not run it keeps what it kept; no reference is lost |
| RunEntry.Session.Run | Android/jni-build/jni/include/tensorflow/c/c_api.cc:463-483 | whatever the session keeps, drops and returns, the references balance |
| RunEntry.Run | Android/jni-build/jni/include/tensorflow/c/c_api.cc:511-597 | on every path each distinct input is deleted exactly once, every reference count is exact again, the outputs are all set if the status is OK and all null otherwise, no other tensor appears or goes, metadata is written exactly when the session ran, and a session that did not run keeps what it kept |
| RunEntry.SessionRun | Android/jni-build/jni/include/tensorflow/c/c_api.cc:1267-1308 | the same when extending the session succeeds; when it fails the inputs are still deleted once each, the status is the failure, and outputs, metadata, the session and all other tensors are as before |
| RunEntry.EndsOneWay | Android/jni-build/jni/include/tensorflow/c/c_api.cc:410-507 | the status of a run is determined by its inputs and the session's answer |
| Layout.ReorderDims | Android/jni-build/jni/include/tensorflow/stream_executor/dnn.cc:159-181 | the loop produces the vector with batch, depth and the spatial entries where the requested layout puts them |
| Layout.ReorderComposes | Android/jni-build/jni/include/tensorflow/stream_executor/dnn.cc:159-181 | from a to b to c is from a to c, and from a to b to a is the identity |
| Layout.ReorderPermutes | Android/jni-build/jni/include/tensorflow/stream_executor/dnn.cc:159-181 | a reordering drops and repeats nothing |
| Layout.ArrangedAt | Android/jni-build/jni/include/tensorflow/stream_executor/dnn.cc:127-157 | the indices given for a layout name every slot of the vector once, so filling them determines it |
| Layout.BatchDescriptor.FullDims | Android/jni-build/jni/include/tensorflow/stream_executor/dnn.cc:197-203 | the dimensions, spelled in the order that each layout is named after |
| Layout.BatchDescriptor.FullStrides | Android/jni-build/jni/include/tensorflow/stream_executor/dnn.cc:205-214 | at its place in the requested layout, the stride of depth, batch and every spatial dimension is the product of the dimensions behind its place in the stored layout |
| Layout.BatchDescriptor.StridesSpelled | Android/jni-build/jni/include/tensorflow/stream_executor/dnn.cc:205-214 | the same of the strides as a value, which fixes that they belong to the stored layout |
| Layout.StridesOfStoredLayout | Android/jni-build/jni/include/tensorflow/stream_executor/dnn.cc:205-214 | a concrete batch stored with the batch innermost, its strides requested with the batch first |
| Layout.BatchDescriptor.NodesPerFeatureMap | Android/jni-build/jni/include/tensorflow/stream_executor/dnn.cc:274-280 | the product of the spatial sizes |
| Layout.BatchDescriptor.ElementCount | Android/jni-build/jni/include/tensorflow/stream_executor/dnn.cc:286-288 | the number of elements that the strides number |
| Layout.RowMajorAt | Android/jni-build/jni/include/tensorflow/stream_executor/dnn.cc:208-212 | a stride is the product of all dimensions to its right |
| Layout.PackUnpack | Android/jni-build/jni/include/tensorflow/stream_executor/dnn.cc:205-214 | every offset below the product of the dimensions has an in-range coordinate |
| Layout.UnpackPack | Android/jni-build/jni/include/tensorflow/stream_executor/dnn.cc:205-214 | an in-range coordinate has an offset below the product, and can be read back from it |
| Layout.BatchDescriptor.DimsMultiplyToElements | Android/jni-build/jni/include/tensorflow/stream_executor/dnn.cc:197-288 | the dimensions of every layout multiply up to the element count |
| Layout.BatchDescriptor.OffsetIgnoresLayout | Android/jni-build/jni/include/tensorflow/stream_executor/dnn.cc:197-214 | a logical element has the same offset whichever layout is requested |
| Layout.BatchDescriptor.CoordinateOfOffset | Android/jni-build/jni/include/tensorflow/stream_executor/dnn.cc:197-214 | the offset of an in-range coordinate is below the element count and determines the coordinate |
| Layout.BatchDescriptor.OffsetOfCoordinate | Android/jni-build/jni/include/tensorflow/stream_executor/dnn.cc:197-214 | every offset below the element count is that of an in-range coordinate |
| Layout.BatchDescriptor.StridesAreBijective | Android/jni-build/jni/include/tensorflow/stream_executor/dnn.cc:197-288 | for every rank, stored layout and requested layout, coordinate-dot-strides is a bijection from the in-range coordinates onto 0..ElementCount-1 |
| Layout.BatchDescriptor.StridesFit | Android/jni-build/jni/include/tensorflow/stream_executor/dnn.cc:205-214 | no stride exceeds the element count, so the strides fit wherever it does |
| TempMemory.InsertFindsNoRecord | Android/jni-build/jni/include/tensorflow/stream_executor/temporary_memory_manager.cc:98-115 | an address that is being inserted has no record, although it was allocated outside the lock and may have been used before |
| TempMemory.InterleavingsAreSafe | Android/jni-build/jni/include/tensorflow/stream_executor/temporary_memory_manager.cc:51-124 | in every interleaving, with addresses reused at will: the DCHECK at insertion holds, every record is a live allocation, nothing is freed twice or by mistake, and an allocation was freed exactly if nobody holds it |
| TempMemory.SweepReleasesExactlyFinalized | Android/jni-build/jni/include/tensorflow/stream_executor/temporary_memory_manager.cc:51-65 | a sweep leaves exactly the records that were not finalized when it took the lock |
| TempMemory.VerdictsAreFinal | Android/jni-build/jni/include/tensorflow/stream_executor/temporary_memory_manager.cc:67-91 | once IsFinalized is true for an issued handle it stays true, and a released handle is never again reported allocated, even after its address is reused |
| TempMemory.KeepsMemoryIff | Android/jni-build/jni/include/tensorflow/stream_executor/temporary_memory_manager.cc:37-65 | a handle that is recorded and not finalized stays so through a run exactly if nobody marks its address, with whatever handle, in that run |
| TempMemory.LosesRecordIff | Android/jni-build/jni/include/tensorflow/stream_executor/temporary_memory_manager.cc:37-65 | between two moments outside of sweeps such a handle loses its record exactly if somebody marks its address, with whatever handle, and a sweep begins after that |
| TempMemory.OnlyOwnerHasRecord | Android/jni-build/jni/include/tensorflow/stream_executor/temporary_memory_manager.cc:83-91 | of two handles to one address at most one is allocated |
| TempMemory.DisciplinedRunKeepsMemory | Android/jni-build/jni/include/tensorflow/stream_executor/temporary_device_memory.cc:23-46 | where no handle outlives its own record, a handle that is itself never marked keeps its record through every sweep |
| TempMemory.LateDestructorTakesMemory | Android/jni-build/jni/include/tensorflow/stream_executor/temporary_device_memory.cc:23-27 | that proviso is needed, because marking ignores the generation: a run in which a late destructor takes the memory of a handle that was never marked |
| TempMemoryManager.Manager.Mark | Android/jni-build/jni/include/tensorflow/stream_executor/temporary_memory_manager.cc:37-49 | marks the record its address has now, and aborts exactly if it must find one and there is none |
| TempMemoryManager.Manager.Finalized | Android/jni-build/jni/include/tensorflow/stream_executor/temporary_memory_manager.cc:67-81 | true without a record or with one of another generation, else whether it is finalized |
| TempMemoryManager.Manager.Allocated | Android/jni-build/jni/include/tensorflow/stream_executor/temporary_memory_manager.cc:83-91 | whether there is a record of this generation |
| TempMemoryManager.Manager.DeallocateFinalizedTemporaries | Android/jni-build/jni/include/tensorflow/stream_executor/temporary_memory_manager.cc:51-65 | erasing while iterating drops exactly the finalized records and frees each one's memory once |
| TempMemoryManager.Manager.ForceDeallocateAll | Android/jni-build/jni/include/tensorflow/stream_executor/temporary_memory_manager.cc:28-35 | every record's memory is freed once, and the records stay |
| TempMemoryManager.Manager.AllocateArrayBase | Android/jni-build/jni/include/tensorflow/stream_executor/temporary_memory_manager.cc:93-124 | after a refusal nothing has changed; else the new handle is allocated, not finalized, and has the next generation |
| TempMemoryManager.Manager.FinalizeHandle | Android/jni-build/jni/include/tensorflow/stream_executor/temporary_device_memory.cc:41-46 | for a handle that is not finalized the record exists, so finalizing never aborts |
| TempMemoryManager.Manager.DestroyHandle | Android/jni-build/jni/include/tensorflow/stream_executor/temporary_device_memory.cc:23-27 | a destroyed handle is finalized, whatever record its address has |
| TempMemoryManager.DestructionFreesEverythingOnce | Android/jni-build/jni/include/tensorflow/stream_executor/temporary_memory_manager.cc:28-35 | when a stream goes after any run, with no call under way, releasing all records leaves each temporary ever allocated freed exactly once, and frees nothing else |
| Yuv.WriteYuv | Android/jni-build/jni/rgb2yuv.cc:24-56 | stores the luma, clears the block's bytes at its first pixel, adds the terms modulo 256, and touches nothing else |
| Yuv.TermRanges | Android/jni-build/jni/rgb2yuv.cc:29-55 | luma lies in 16..235 and a chroma term in 4..60, for every color |
| Yuv.FirstOfBlock | Android/jni-build/jni/rgb2yuv.cc:35-42 | a pixel clears its block exactly if no earlier pixel belongs to the block |
| Yuv.SumIsBlockSum | Android/jni-build/jni/rgb2yuv.cc:52-55 | what is accumulated for a block is the sum over the pixels of its 2x2 square that lie in the image |
| Yuv.NothingWraps | Android/jni-build/jni/rgb2yuv.cc:52-55 | no addition to a chroma byte reaches 256 |
| Yuv.FullBlockRange | Android/jni-build/jni/rgb2yuv.cc:52-55 | a block with four pixels in the image ends in 16..240 |
| Yuv.YuvBytesAreBytes | Android/jni-build/jni/rgb2yuv.cc:24-56 | every byte of the converted image lies in 0..240 |
| Yuv.ConvertArgb8888 | Android/jni-build/jni/rgb2yuv.cc:58-79 | for every size, odd ones too, every byte of the output is written: the luma of its pixel, or the sum of its block's terms |
| Yuv.ConvertRgb565 | Android/jni-build/jni/rgb2yuv.cc:81-104 | the same for 5/6/5 bit pixels stretched to eight bits a channel |
| Yuv.LumaSpelled | Android/jni-build/jni/rgb2yuv.cc:61-76 | the size of the output, and the luma of every row and column at its place |
| Yuv.ChromaSpelled | Android/jni-build/jni/rgb2yuv.cc:32-55 | every block's V and then U, row by row of blocks rounded up, as the sum of the terms of its up to four pixels |
| Yuv.ArgbChannels | Android/jni-build/jni/rgb2yuv.cc:72-74 | which byte of a pixel is which channel |
| Yuv.From565Spelled | Android/jni-build/jni/rgb2yuv.cc:91-99 | a stretched channel has on top the bits it was stretched from, and repeats them below |
| Yuv.From565Scale | Android/jni-build/jni/rgb2yuv.cc:91-99 | exactly a channel of zeros becomes 0, and exactly one of ones 255 |
| Yuv.YuvIsDetermined | Android/jni-build/jni/rgb2yuv.cc:58-104 | the result depends on the pixels alone, not on what the buffer held |
| Argb.UnpackPacked | Android/jni-build/jni/yuv2rgb.cc:46-54 | the packed channels can be read back, each the top eight of its eighteen bits, under a full alpha |
| Argb.Pack565Truncates | Android/jni-build/jni/yuv2rgb.cc:177-187 | the 5/6/5 pixel is the ARGB pixel cut to 5, 6 and 5 bits |
| Argb.TruncatedSpelled | Android/jni-build/jni/yuv2rgb.cc:186-187 | of a 5/6/5 pixel the upper bits are red, the middle ones green and the lower ones blue |
| Argb.PixelSpelled | Android/jni-build/jni/yuv2rgb.cc:30-55 | one pixel: luma below black counts as black, the weighted sums are cut off below 0 and above 18 bits, and their top bytes are the channels |
| Argb.StridedIsFromPlanes | Android/jni-build/jni/yuv2rgb.cc:66-79 | for any strides the pixel of row y and column x is made of the luma x bytes into row y of its plane, at the luma stride, and the chroma x / 2 pixel strides into row y / 2 of theirs |
| Argb.SpIsFromPairs | Android/jni-build/jni/yuv2rgb.cc:94-107 | for any width the pixel of row y and column x is made of its luma and the pair, V first, at y / 2 times the width plus twice x / 2 |
| Argb.Mean | Android/jni-build/jni/yuv2rgb.cc:124 | the mean of four lumas, rounded down |
| Argb.ConvertYuv420ToArgb8888 | Android/jni-build/jni/yuv2rgb.cc:61-80 | every pixel, by row and column, is converted from its luma at the luma stride and its chroma at the chroma strides |
| Argb.ConvertYuv420SpToArgb8888 | Android/jni-build/jni/yuv2rgb.cc:86-109 | every pixel is converted from its own luma and the chroma pair of its block |
| Argb.ConvertYuv420SpToRgb565 | Android/jni-build/jni/yuv2rgb.cc:144-190 | the same samples, packed into 5, 6 and 5 bits |
| Argb.ConvertYuv420SpHalfSize | Android/jni-build/jni/yuv2rgb.cc:112-138 | every pixel is converted from the mean of four lumas and the chroma pair under the moving cursors, which stay inside the input |
| Argb.StridedIsSemiPlanar | Android/jni-build/jni/yuv2rgb.cc:61-109 | with row strides of one width, a pixel stride of two and U one byte behind V, the strided converter is the semi-planar one, pixel by pixel |
| Argb.Rgb565IsTruncatedArgb | Android/jni-build/jni/yuv2rgb.cc:86-190 | every pixel of the 5/6/5 image is the truncation of the same pixel of the ARGB image |
| Argb.ConvertersAgree | Android/jni-build/jni/yuv2rgb.cc:61-190 | on whole images the strided and the semi-planar converter make the same picture, and the 5/6/5 one its truncation |
| Argb.HalfCursorsInside | Android/jni-build/jni/yuv2rgb.cc:122-137 | the half-size loop never reads outside a buffer with room for both planes, odd sizes included |
| Argb.HalfCursorsOnBlockIff | Android/jni-build/jni/yuv2rgb.cc:122-137 | the cursors stand on the 2x2 block of every pixel exactly if the width is even or there is at most one row |
| Argb.HalfSizeAveragesBlocks | Android/jni-build/jni/yuv2rgb.cc:112-138 | for even widths a half-size pixel has the mean luma of its 2x2 block and the block's chroma |
| Argb.BlockSharesChroma | Android/jni-build/jni/yuv2rgb.cc:97 | the full-size converters use one chroma pair for the four pixels of a block |
| ImageRoundTrip.NeutralChromaKeepsGray | Android/jni-build/jni/yuv2rgb.cc:30-55 | a gray level with neutral chroma comes back gray, of its level or one below |
| ImageRoundTrip.PartialChromaLosesGray | Android/jni-build/jni/yuv2rgb.cc:30-55 | with the chroma of a block of one or two pixels green exceeds red and blue |
| ImageRoundTrip.GrayBlock | Android/jni-build/jni/rgb2yuv.cc:34-55 | a gray block's chroma bytes are 32 for each of its pixels in the image |
| ImageRoundTrip.Rounded | Android/jni-build/jni/rgb2yuv.cc:29-55 | luma and chroma terms are the weighted sums of the channels, divided by 256 and 1024 and rounded down |
| ImageRoundTrip.EncodedIsReadable | Android/jni-build/jni/yuv2rgb.cc:94-107 | the decoder never reads outside what the encoder wrote, whatever the size |
| ImageRoundTrip.GrayRoundTripIff | Android/jni-build/jni/yuv2rgb.cc:86-109 | every pixel of a gray image comes back gray, as v or v - 1, exactly if width and height are even |
| ImageRoundTrip.OwnChromaKeepsColor | Android/jni-build/jni/yuv2rgb.cc:30-55 | any color, with the chroma of a block of its own color, comes back with red off by -7..1, green by -2..5 and blue by -9..2 |
| ImageRoundTrip.RedBoundsReached | Android/jni-build/jni/yuv2rgb.cc:42-52 | the bounds for red cannot be narrowed |
| ImageRoundTrip.GreenBoundsReached | Android/jni-build/jni/yuv2rgb.cc:43-52 | nor those for green |
| ImageRoundTrip.BlueBoundsReached | Android/jni-build/jni/yuv2rgb.cc:44-52 | nor those for blue |
| ImageRoundTrip.ColorsComeBack | Android/jni-build/jni/yuv2rgb.cc:86-109 | for even sizes every image whose 2x2 blocks have one color each comes back within these bounds, which ties both converters' coefficients and the order of U and V to each other |
| ImageRoundTrip.ThereAndBack | Android/jni-build/jni/rgb2yuv.cc:58-79 | both converters one after the other, on any image |
| Occupancy.CeilIsLeast | Android/jni-build/jni/include/tensorflow/stream_executor/device_description.cc:138-161 | dividing and rounding up gives the least number of units that suffice |
| Occupancy.RoundUpScales | Android/jni-build/jni/include/tensorflow/stream_executor/device_description.cc:154-156 | rounding up scales with the granularity, so a multiple of the warp size rounds registers per thread |
| Occupancy.DivisorsExact | Android/jni-build/jni/include/tensorflow/stream_executor/device_description.cc:185-209 | without 64-bit overflow no wrap-around changes a divisor, and none is zero |
| Occupancy.OccupancyIsGreatestFeasible | Android/jni-build/jni/include/tensorflow/stream_executor/device_description.cc:163-213 | n blocks meet the block, register, shared-memory and thread limits at once exactly for n up to the returned occupancy |
| Occupancy.OccupancySpelled | Android/jni-build/jni/include/tensorflow/stream_executor/device_description.cc:163-213 | n blocks fit exactly if they do in blocks, in registers with the least number of warps rounded up to the least multiple of the warp granularity and a warp's registers to the least multiple of theirs, in shared memory rounded up likewise, and in threads |
| Occupancy.SixBlocks | Android/jni-build/jni/include/tensorflow/stream_executor/device_description.cc:185-199 | a concrete launch whose three warps are allocated as four |
| Occupancy.NoBlocks | Android/jni-build/jni/include/tensorflow/stream_executor/device_description.cc:167-183 | without one of seven values set, or above the register limit, the occupancy is 0 |
| Occupancy.OccupancyNeverIncreases | Android/jni-build/jni/include/tensorflow/stream_executor/device_description.cc:163-213 | asking for more registers or more shared memory never raises the occupancy |
| Occupancy.RegisterLimitForTargetOccupancy | Android/jni-build/jni/include/tensorflow/stream_executor/device_description.cc:215-232 | the loop ends with the greatest register count on its grid that meets the target, or 0 if none does; it divides by zero exactly if the step is zero, the limit is positive and the limit itself misses the target |
| Occupancy.OneResult | Android/jni-build/jni/include/tensorflow/stream_executor/device_description.cc:215-232 | the result of the search is determined |
| Occupancy.SmallSearchIsSearchable | Android/jni-build/jni/include/tensorflow/stream_executor/device_description.cc:163-232 | on a device without overflow every occupancy the search asks for can be calculated, and its int register counts and step are exact |
| Occupancy.IntOfWord | Android/jni-build/jni/include/tensorflow/stream_executor/device_description.cc:221-223 | a 64-bit word assigned to an int keeps its low 32 bits, read as signed |
| Occupancy.OccupancyConstantBetweenGridPoints | Android/jni-build/jni/include/tensorflow/stream_executor/device_description.cc:194-209 | when the register granularity is a multiple of the warp size, a register count has the occupancy of the next grid point above |
| Occupancy.SearchFindsMaximum | Android/jni-build/jni/include/tensorflow/stream_executor/device_description.cc:215-232 | then, or with a step of one, the result is the maximum over all register counts up to the limit |
| Occupancy.SearchSkipsMaximum | Android/jni-build/jni/include/tensorflow/stream_executor/device_description.cc:221-224 | for every other granularity of at least two warps there is a device on which the search skips the maximum |
| Occupancy.SearchDividesByZero | Android/jni-build/jni/include/tensorflow/stream_executor/device_description.cc:221-224 | for every granularity below the warp size there is a device on which the search divides by zero |
| Occupancy.SearchExactIff | Android/jni-build/jni/include/tensorflow/stream_executor/device_description.cc:215-232 | the search ends with the maximum on every device exactly if the granularity is a multiple of the warp size or the step is one, granularities below the warp size included |
| TopN.DescendingIsSort | Android/jni-build/jni/tensorflow_jni.cc:200-205 | the reference order lists every candidate once, greatest first |
| TopN.PopKeepsUpper | Android/jni-build/jni/tensorflow_jni.cc:192-197 | pushing a candidate and popping the least keeps the queue an upper part of all candidates |
| TopN.UpperPartSortsFirst | Android/jni-build/jni/tensorflow_jni.cc:192-205 | the sorted upper part is a prefix of all candidates sorted |
| TopN.Select | Android/jni-build/jni/tensorflow_jni.cc:182-198 | after the loop the queue holds the greatest candidates, as many as the capacity admits |
| TopN.Drain | Android/jni-build/jni/tensorflow_jni.cc:200-205 | popping everything behind the vector and reversing gives descending order |
| TopN.BestIsTop | Android/jni-build/jni/tensorflow_jni.cc:171-206 | the cut-off sorted candidates, by values and indices: entries are predictions at or above the threshold, values descend and among equal ones indices, everything left out is lower, and as many are there as the threshold and N admit |
| TopN.GetTopN | Android/jni-build/jni/tensorflow_jni.cc:171-206 | into an empty vector: exactly that; what the vector held before follows, reversed |
| TopN.NegativeCountKeepsAll | Android/jni-build/jni/tensorflow_jni.cc:194-197 | a negative count, compared as unsigned, keeps every candidate, whether a size has 32 or 64 bits |
| SubStreams.Stream.GetOrCreateSubStream | Android/jni-build/jni/include/tensorflow/stream_executor/stream.cc:1224-1239 | hands out the first available stream, or appends a new one; aborts exactly if it appends while the stream is in error; never returns once the mutex is stuck |
| SubStreams.Stream.ReturnSubStream | Android/jni-build/jni/include/tensorflow/stream_executor/stream.cc:1241-1250 | makes exactly that stream available, aborts exactly if the pool does not know it, and never returns once the mutex is stuck |
| SubStreams.Stream.BlockHostUntilDone | Android/jni-build/jni/include/tensorflow/stream_executor/stream.cc:3909-3935 | in error nothing changes; else, if all streams that are out are done, every stream becomes available and the stream's own outcome is returned; if one fails, the streams before it become available and the call never returns, since reporting the failure takes the mutex it holds |
| SubStreams.UsableIff | Android/jni-build/jni/include/tensorflow/stream_executor/stream.cc:3919-3929 | over any run the stream stays usable exactly if every block found all streams that were out done, or the stream in error already; a block that does not return is the last call |
| SubStreams.BlockComesBackIff | Android/jni-build/jni/include/tensorflow/stream_executor/stream.cc:3919-3929 | where leases and flags agree, all streams that are out are done exactly if every live lease is of a stream that is done |
| SubStreams.FailedStreamHangsBlock | Android/jni-build/jni/include/tensorflow/stream_executor/stream.h:1454-1460 | a concrete run in which a failed sub-stream hangs the block, after which no call does anything |
| SubStreams.PoolGrowsToPeak | Android/jni-build/jni/include/tensorflow/stream_executor/stream.cc:1224-1250 | along any run the pool never has fewer streams than are out, and when it has grown, that many were out at some moment |
| SubStreams.PoolSizeIsPeak | Android/jni-build/jni/include/tensorflow/stream_executor/stream.cc:1224-1250 | after any run from the start the pool is exactly as large as the most streams ever out at once |
| SubStreams.LeasesAreExclusive | Android/jni-build/jni/include/tensorflow/stream_executor/stream.cc:1224-1250 | if nobody returns a stream twice or after it was reclaimed, the live leases are of different streams, which are those marked as out, and there are as many of them |
| SubStreams.NoStreamOutTwice | Android/jni-build/jni/include/tensorflow/stream_executor/stream.cc:1224-1250 | the same from the empty pool on |
| SubStreams.ReturnKeepsMatchedIff | Android/jni-build/jni/include/tensorflow/stream_executor/stream.cc:1241-1250 | a return keeps the flags right exactly if its lease is live or nobody else holds the stream |
| SubStreams.ReturnSharesNothingIff | Android/jni-build/jni/include/tensorflow/stream_executor/stream.cc:1224-1250 | and exactly then no number of streams taken afterwards makes two live leases share a stream |
| SubStreams.StaleReturnSharesStream | Android/jni-build/jni/include/tensorflow/stream_executor/stream.cc:1224-1250 | a concrete run in which two live leases share a stream after a stale return |

## Left out

- RunEntry.SessionRun: says nothing of the outputs when extending the session fails, except that they are as before; the source returns before it clears them.
- RunEntry.RunInputs: takes distinct, live inputs only, as does everything built on it; `RunEntry.DeletableIff` shows that any other list makes the source delete a tensor twice.
- StringTensor.DecodeStrings: takes buffers whose offsets and lengths are below 2^63; beyond that the source compares them as negative numbers.
- StringTensor.EncodeStrings: offsets are stored least significant byte first, the byte order of the devices the demo runs on; the source stores them in the byte order of the host.
- TF_PRunSetup, TF_SessionPRunSetup and TF_SessionPRun: the same helpers once more, without a new property.
- What a session computes: `Session::Run`, `Session::Extend`, node building, protobuf parsing and serialization are answers given from outside, successes and failures alike. A `Session::Run` that succeeds returns as many outputs as it was asked for, all initialized, since the source aborts on others.
- Tensor shapes with negative sizes, overflow of the element count, realignment of a new tensor's data, and tensors that view a part of another one's buffer.
- A run's inputs and outputs on several threads at once: the entry points are modelled one call at a time, with the references of all others carried along.
- GraphLifetime.FreedOnceAndLast: for clients that delete the graph once and create no session on it from then on; the two counterexamples show what happens to others.
- Layout.BatchDescriptor.ElementCount: integers are unbounded; `Layout.BatchDescriptor.StridesFit` bounds the strides by the element count, but an element count beyond 64 bits is not modelled. Filter, pooling and convolution descriptors and all text output are left out.
- TempMemory.VerdictsAreFinal: as long as fewer than 2^64 temporaries were issued, so that no generation repeats. The product of element count and size is not modelled; the device answers with an address or refuses.
- TempMemoryManager.Manager.ForceDeallocateAll: only as the last act of a manager, since the records stay.
- Occupancy.RegisterLimitForTargetOccupancy: for devices and launches whose occupancies can be calculated; where a granularity, the warp size or a product that wrapped is zero, the source divides by zero inside the calculation.
- Occupancy.OccupancyIsGreatestFeasible: for devices and launches whose products do not overflow 64 bits and whose granularities are not zero; the function itself is modelled with its wrap-around. Occupancy.SearchExactIff also keeps warp size and granularity small enough for a device to exist on which the search fits an int.
- `CalculateDimensionality` and `ThreadDimOk`: a division and comparisons, which would only add easy members.
- Yuv.ConvertArgb8888: width times height as an unbounded number; the channel order of Apple platforms is left out, as in Argb.
- Argb.ConvertYuv420ToArgb8888: reads that fall outside the planes are excluded; input planes are values, so an output that overlaps its input is not modelled.
- TopN.GetTopN: confidences are ranks of floats that are not NaN, and the priority queue is a set whose least member is on top, since all pairs differ in their index.
- SubStreams.Stream.BlockHostUntilDone: whether a sub-stream ends with or without error is given from outside; one whose own block never returns is not modelled, nor is what sub-streams do.
- The order in which a sweep visits records, which is that of `std::map`: any order is allowed.
- JNI bindings, file and asset reading, the BLAS, DNN, FFT and RNG calls of a stream, dynamic loading, plug-in lookup and the web services.
