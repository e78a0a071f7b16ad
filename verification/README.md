# barra: verified models

barra runs language models on a phone's GPU and TPU through small daemons, and carries its own image and JSON code.
These Dafny modules model the parts of it where a mistake would be silent - wrong numbers instead of a crash - and
prove what those parts are for, over all inputs, all runs and all schedules.

**GPU graphs** (`GpuMemory`, `Tensors`, `Placement`, `Daemon`, `Encoder`, `Barriers`, `Graph`, `Backend`). The backend
turns a tensor graph into batches of stages, drops barriers it thinks unnecessary, fuses norms, reuses a quantised
operand, cuts batches by a time budget and runs some nodes on the CPU; the daemon may overlap everything between two
barriers. Memory is a total map from addresses to bytes. A stage reads its declared ranges and writes its declared
ranges; what it computes is a function of the bytes it read. The device is a step system in which every stage loads
and stores arbitrary sets of bytes, one event at a time. `Backend.Backend.GraphCompute` is the main result;
`Barriers.FewestBarriers` says when its barriers are as few as can be.

**GPU session** (`Wire`, `Requests`, `GpuDaemon`, `GpuClient`, `Execution`, `PipeCache`, `Repack`). Client and daemon
are classes that share two byte pipes and each keep a table. Reading from a pipe demands that the bytes are there, so
the proofs show that neither end ever waits for bytes the other does not send. `Execution` joins the session to the
device: what the client sends is what runs.

**Thread pool and FFN path** (`Pool`, `RankUpdate`, `FfnSplit`, `QuantRow`). The pool is a step system over atomic
accesses, for any number of workers, calls and chunk sizes. The rank-k update is over an uninterpreted number type.
The FFN path is given what the accelerator returned, pass by pass.

**PNG and zlib** (`Bits`, `Bytes`, `BitReversal`, `Canonical`, `Huffman`, `BitReader`, `Deflate`, `Inflate`,
`BlockEnd`, `Unfilter`, `PngRows`, `PngImage`, `Grid`, `Adam7`). What a stream means is defined after RFC 1951
(sections 3.2.2, 3.2.3 and 3.2.5) and the PNG Specification, second edition (sections 8.2 and 9.2 to 9.4),
independently of the decoder, with a writer for each.

**JSON** (`Json`, `JsonMeaning`). The chat client's string writer, its reader and its scan for the closing quote
(section 7 of RFC 8259), and what a string means in UTF-8 (sections 3 and 4 of RFC 3629).

The code has these preconditions, because its failure paths do not keep the claims: every batch the backend submits
succeeds, and the scratch buffer can be allocated; tensors in different buffers are disjoint; memory planning honours
use counts, so that only the multiplication reads a norm output with a use count of one; CPU and a shader that handles
a node compute the same function of its operands, apart from the integer dot product, whose operand is quantised; the
measuring mode that suppresses all barriers is off. The hash of the pipeline cache separates the programs it has seen.
Stages sent to the daemon name loaded shaders and ranges inside their buffers, and a shader is at most 16 MB, because
the daemon rejects others in mid-message.

Some claims are false of the code as it stands. Each is shown with the condition under which it does hold:

- After a gate/up inference fails in a later pass, rows of that tile which were already resolved are neither written nor
  put on the fallback list (`FfnSplit.LateFailureLoses`; exactly when: `FfnSplit.Split.Run`, `FfnSplit.LostExactlyWhen`).
- The daemon's range test of a COPY adds offset and length in 64 bits, and the sum can wrap around
  (`Requests.WrappingCopyAccepted`; exactly when: `Requests.AcceptedCopies`).
- The comment in the bit reader says that a block which uses padding behind the data is always caught. It is not: a block
  that is cut off inside its end mark can be accepted (`BlockEnd.EndInPadding`). It is caught for all data exactly if the
  code of the end mark ends in a one (`BlockEnd.OddEndInside`), and in any case if the zeros were not put there by the
  byte-wise refill (`Inflate.Inflater.ParseBlock`). The fixed code's end mark is all zeros.
- The encoder's barriers are not always as few as can be: an empty range that it compares with one strictly around it
  costs a barrier that no result needs (`Barriers.OneTooMany`). This is the only way its range tests report more than
  conflicts on bytes (`Encoder.ClashExactly`, `Barriers.TooManyExactly`); in batches without such a comparison whose
  stages all write something, as those of a graph do, the barriers are as few as can be (`Barriers.FewestBarriers`).
- The chat client does not print every JSON string as it is meant: it knows no escapes for backspace, form feed and
  carriage return (`JsonMeaning.ReturnMisprinted`) and prints the two halves of an escaped surrogate pair one by one
  (`JsonMeaning.PairMisprinted`); exactly when it is right: `JsonMeaning.PrintedExactly`.
- An import can leave a daemon slot in use that belongs to no client buffer (`GpuClient.ListedTwice`). Where there was
  none before, a successful import leaves one exactly if it lists a buffer twice or one that has a handle
  (`GpuClient.Client.Import`), and a refused one may leave one exactly if it lists at least two buffers and the table is
  not full (`GpuClient.RefusalLeaves`).

Where the code and its comments disagree, the model follows the code: the comment on the daemon's stage flags names
command 7, but the code reads flags with command 9 (src/hwbridge/gpud-zc.c:338-340 and 458-462).

`dafny verify dfyconfig.toml` checks the whole project.

## Model

| member | source | states |
|---|---|---|
| Backend.Backend.GraphCompute | src/ggml-gpud/ggml-gpud.cpp:527-588 | Whatever the device's schedule, the batch cuts, fused norms, skipped quantise stages, scratch growth and CPU fallbacks, memory ends as node-by-node evaluation leaves it, on every byte below the scratch buffer except outputs of fused norms. |
| Backend.Backend.NodeStep | src/ggml-gpud/ggml-gpud.cpp:569-583 | One round of the node loop advances the agreement with node-by-node evaluation by one or two nodes and keeps the quantise record truthful. |
| Backend.Backend.EncodeNode | src/ggml-gpud/ggml-gpud.cpp:591-711 | A node that is encoded contributes exactly its own effect to the memory the pending stages will produce; one that is refused contributes nothing that evaluation could see. |
| Backend.Backend.FusedNode | src/ggml-gpud/ggml-gpud.cpp:616-631 | Fusing a norm with the multiplication after it gives the multiplication's result; only the norm's own output is skipped. |
| Backend.Backend.QuantNode | src/ggml-gpud/ggml-gpud.cpp:653-711 | The int-dot path computes the node from the scratch buffer as if it had quantised its own operand. |
| Backend.TestExactly | src/ggml-gpud/ggml-gpud.cpp:654-659 | The type, shape, contiguity and remainder tests, with the bindings made later, pick exactly the nodes whose meaning is the integer dot product. |
| Graph.ProductMeaning | src/ggml-gpud/ggml-gpud.cpp:649-711 | On memory that agrees with node-by-node evaluation, a byte last written by a matrix product comes from the integer dot product if and only if the product is supported, its weight is a k-quant of whole superblocks on a multiple of the load unit, the activations are contiguous, all three tensors begin in device buffers and no switch forbids it; from plain evaluation otherwise. |
| Tensors.BindExactly | src/ggml-gpud/ggml-gpud.cpp:412-419 | A tensor can be bound if and only if it begins in one of the backend's buffers, and the remainder tells whether it begins on a multiple of a load unit. |
| Tensors.InBufferExactly | src/ggml-gpud/ggml-gpud.cpp:428-433 | The range test accepts a bindable tensor if and only if no byte of it lies outside its buffer. |
| Backend.Backend.PrepareOperand | src/ggml-gpud/ggml-gpud.cpp:660-680 | Afterwards the scratch buffer, counting pending stages in order, holds the q8_1 form of the operand's current bytes, whether or not a quantise stage was pushed. |
| Backend.Backend.EncodeQuant | src/ggml-gpud/ggml-gpud.cpp:649-711 | Quantise (or its omission) and GEMV together have the node's effect and leave other graph memory alone. |
| Backend.Backend.CpuNode | src/ggml-gpud/ggml-gpud.cpp:579-582 | The CPU fallback computes the node from the memory that all pending GPU work leaves, and no stage is pending afterwards. |
| Backend.Backend.Invalidate | src/ggml-gpud/ggml-gpud.cpp:494-499 | A record kept after a node was written still describes the current bytes of its tensor. |
| Backend.Backend.Flush | src/ggml-gpud/ggml-gpud.cpp:545-565 | Submitting a batch, in any execution the device may choose, leaves the memory of its stages run one after another; its time per workgroup joins the session's measurements, and the batch was within the time budget. |
| Backend.Backend.EnsureScratch | src/ggml-gpud/ggml-gpud.cpp:117-129 | The scratch buffer is as large as asked and stays above the graph's memory. |
| Tensors.NeedExactly | src/ggml-gpud/ggml-gpud.cpp:661-664 | The q8_1 form takes 36 bytes per block of 32 elements, rounded up to 16. |
| Backend.QuantiseStage | src/ggml-gpud/ggml-gpud.cpp:667-679 | After a quantise stage the scratch buffer holds the quantised form of its operand. |
| Backend.ScratchKept | src/ggml-gpud/ggml-gpud.cpp:574-577 | Writes elsewhere do not spoil what the scratch buffer holds. |
| Backend.GemvComputes | src/ggml-gpud/ggml-gpud.cpp:681-709 | Read from a truthful scratch buffer, the GEMV kernel's output is the node's result. |
| Backend.Backend.EffectKeepsDedup | src/ggml-gpud/ggml-gpud.cpp:574-582 | A node that does not write over the recorded tensor leaves the record true. |
| Backend.Backend.FusedKeepsDedup | src/ggml-gpud/ggml-gpud.cpp:576-576 | The same for a fused pair, whose two nodes are both checked. |
| Backend.BoundRanges | src/ggml-gpud/ggml-gpud.cpp:436-441 | The ranges derived from a shader's write mask are the destination for writes and exactly the operands that the node consumes for reads. |
| Graph.ReadsAreFresh | src/ggml-gpud/ggml-gpud.cpp:621-627 | Under an allocation plan that honours use counts, no node ever reads a byte of a norm output that fusion skipped. |
| Graph.AdvanceNode | src/ggml-gpud/ggml-gpud.cpp:569-583 | Agreement with node-by-node evaluation passes over one node. |
| Graph.AdvanceFused | src/ggml-gpud/ggml-gpud.cpp:616-631 | Agreement passes over a fused pair, with the norm's output added to the stale bytes. |
| Graph.FusedMatches | src/ggml-gpud/ggml-gpud.cpp:619-630 | The fused kernel's result equals the multiplication applied to the norm's result. |
| Graph.OnlyUse | src/ggml-gpud/ggml-gpud.cpp:624-624 | A use count of one means that the multiplication is the only reader. |
| Daemon.ScheduleIndependence | src/hwbridge/gpud-zc.c:403-411 | If every conflicting pair of dispatches has a barrier in between, every execution - loads and stores of single bytes in any legal order - ends in the memory of running them in order. |
| Daemon.OrderMatters | src/ggml-gpud/ggml-gpud.cpp:393-396 | Two stages that conflict on some byte and both write something can have kernels, over just their ranges, for which the order matters. |
| Daemon.SomeOutcome | src/hwbridge/gpud-zc.c:403-411 | Every command buffer has an execution that completes, so the statement above is not about nothing. |
| Daemon.ReachableInv | src/hwbridge/gpud-zc.c:403-411 | In every reachable device state each byte is what some cut of the command order would leave there. |
| Daemon.Record | src/hwbridge/gpud-zc.c:403-411 | The recorded commands hold a barrier before stage s exactly if s is not the first, the session does not suppress barriers and bit 0 of its flags is clear. |
| Encoder.BatchIsSequential | src/ggml-gpud/ggml-gpud.cpp:386-401 | A batch flagged by the encoder's tracking executes as its stages one after another, whatever the device overlaps. |
| Encoder.GreedySeparates | src/ggml-gpud/ggml-gpud.cpp:393-401 | Two stages without a barrier between them never conflict: no read-after-write, write-after-read or write-after-write. |
| Encoder.BarriersAreMinimal | src/ggml-gpud/ggml-gpud.cpp:392-401 | The encoder's flags separate every pair of stages that conflicts on a byte, and no placement of barriers that does uses fewer, unless an empty range is compared with one around it. |
| Barriers.FewestBarriers | src/ggml-gpud/ggml-gpud.cpp:386-401 | In a batch whose stages all write something, and where no empty range is compared with one around it: of all placements of barriers under which the device can end in only one memory, whatever the stages compute, the encoder's has the fewest barriers. |
| Barriers.DeterminedSplits | src/hwbridge/gpud-zc.c:403-411 | A placement that leaves the device only one result has a barrier between every two conflicting stages that write something. |
| Barriers.GreedyDetermines | src/ggml-gpud/ggml-gpud.cpp:393-401 | Under the encoder's flags a batch has only one result, whatever its stages compute. |
| Barriers.BarrierNeeded | src/hwbridge/gpud-zc.c:403-411 | Anywhere in a batch, two conflicting stages without a barrier between them can have kernels for which the device ends in two different memories. |
| Barriers.EitherOrder | src/hwbridge/gpud-zc.c:403-411 | In a command buffer where only two dispatches do anything, and no barrier stands between them, both orders are outcomes. |
| Barriers.DeterminedExactly | src/hwbridge/gpud-zc.c:403-411 | If every stage writes something, a placement of barriers leaves the device one result, whatever the stages compute, if and only if it separates every two stages that conflict on a byte. |
| Barriers.TooManyExactly | src/ggml-gpud/ggml-gpud.cpp:392-401 | Of two stages that write something, the encoder's flags have a barrier more than one result needs if and only if it compares an empty range with one around it and the stages do not conflict on a byte. |
| Barriers.OneTooMany | src/ggml-gpud/ggml-gpud.cpp:392-401 | At a concrete input: an empty read range inside what the stage before wrote costs a barrier, and without it the batch still has only one result. |
| Encoder.ClashExactly | src/ggml-gpud/ggml-gpud.cpp:392-396 | Between any two stages the range tests report exactly the conflicts on bytes, and empty ranges strictly inside a range they are compared with. |
| Encoder.MeetsExactly | src/ggml-gpud/ggml-gpud.cpp:392-392 | In general the interval test also reports an empty range strictly inside another one, and nothing else. |
| Encoder.EmptyRangeBarrier | src/ggml-gpud/ggml-gpud.cpp:392-401 | With such an empty range, as an empty operand is read, the encoder places a barrier that no conflict needs. |
| Placement.GreedyIsOptimal | src/ggml-gpud/ggml-gpud.cpp:393-401 | Placing a barrier only when a stage conflicts with its segment is optimal for any conflict relation. |
| Placement.StaysAhead | src/ggml-gpud/ggml-gpud.cpp:393-401 | On every prefix greedy has no more barriers than any valid placement, and with equally many its last segment starts no earlier. |
| Placement.GreedySplits | src/ggml-gpud/ggml-gpud.cpp:393-401 | Greedy placement does separate every conflicting pair. |
| Encoder.MeetsIffShared | src/ggml-gpud/ggml-gpud.cpp:392-392 | The half-open interval test is true exactly if the two nonempty ranges share an address. |
| Encoder.ConflictClashes | src/ggml-gpud/ggml-gpud.cpp:393-396 | Stages that conflict on some byte are found by the range tests. |
| Encoder.BatchEncoder.BarrierFlag | src/ggml-gpud/ggml-gpud.cpp:393-401 | The flag says whether the stage clashes with what was read and written since the last barrier, and the lists afterwards describe exactly the current segment. |
| Encoder.BatchEncoder.PushRaw | src/ggml-gpud/ggml-gpud.cpp:450-461 | Appends exactly this stage unless the batch is full, and keeps the batch valid: once an estimate exists it is predicted below the budget plus its newest stage, before that it has at most 64 stages. |
| Encoder.BatchEncoder.Push | src/ggml-gpud/ggml-gpud.cpp:421-448 | Accepts exactly if the batch has room and every tensor is bound inside its buffer; ranges follow the write mask. |
| Encoder.BatchEncoder.EmptyFits | src/ggml-gpud/ggml-gpud.cpp:404-409 | After a flush one stage always fits. |
| Encoder.EstimateBounds | src/ggml-gpud/ggml-gpud.cpp:553-560 | After any history of batches the estimate lies between the newest and the largest measurement. |
| Encoder.EstimateForgets | src/ggml-gpud/ggml-gpud.cpp:553-560 | The estimate is at least 0.9^(n-j) times the j-th of n measurements. |
| Encoder.EstimateSettles | src/ggml-gpud/ggml-gpud.cpp:557-560 | Under k further measurements at a lower value the distance of the estimate to it shrinks to 0.9^k of what it was. |
| Encoder.Session.Measure | src/ggml-gpud/ggml-gpud.cpp:556-560 | The estimate moves by the rule the bounds are about and the measurement joins the history; neither happens with a fixed batch size. |
| Encoder.Session.EstimateInRange | src/ggml-gpud/ggml-gpud.cpp:553-560 | At any time in a session the estimate lies between its newest and its largest measurement. |
| Encoder.Grid2 | src/ggml-gpud/ggml-gpud.cpp:471-471 | The two axes cover all workgroups, and both stay within 65535 up to the largest count that fits. |
| Tensors.Bind | src/ggml-gpud/ggml-gpud.cpp:412-419 | A binding is an aligned offset plus a remainder below the alignment that together address the tensor inside one of the backend's buffers. |
| Tensors.NoOverwrite | src/ggml-gpud/ggml-gpud.cpp:494-499 | If the overlap test is false, the written tensor shares no byte with the other one. |
| GpuClient.Client.Batch | src/barra/barra.c:348-409 | Imports each unimported buffer once however often it is bound, keeps existing handles, and on success the daemon has run as many stages, each with the client's shader, group counts, push constants and flags, and each binding with the handle of the client's buffer, its offset and its range; both ends stand at a message boundary and agree on all handles. |
| GpuClient.Client.ImportAll | src/barra/barra.c:354-364 | After the import loop exactly the buffers some stage binds have gained a handle, each by one import. |
| GpuClient.Client.CollectNeed | src/barra/barra.c:361-363 | The list to import has every unimported buffer of the stage once, and no other. |
| GpuClient.Client.Import | src/barra/barra.c:284-298 | Success gives every listed buffer a handle, failure changes none; in both cases client and daemon still agree. If every daemon slot in use belonged to a client buffer before, it does after a success exactly if each buffer was listed once and had no handle; the refusal of a single buffer, or by a full table, leaves the daemon as it was. |
| GpuClient.Client.Assign | src/barra/barra.c:296-296 | Handing out fresh handles keeps the agreement, even for a buffer listed twice; every slot in use still belongs to a buffer exactly if none was listed twice and none had a handle. |
| GpuClient.SlotsLeftOver | src/hwbridge/gpud-zc.c:441-447 | Once the new handles are assigned, no daemon slot is without its buffer if and only if each buffer was listed once and had no handle. |
| GpuClient.RefusalLeaves | src/hwbridge/gpud-zc.c:430-449 | The daemon can refuse an import and leave a slot in use without its buffer if and only if the import lists at least two buffers and the table has a free slot. |
| GpuClient.ListedTwice | src/barra/barra.c:284-298 | At a concrete input: a fresh session that successfully imports one buffer listed twice has a daemon slot in use that belongs to no buffer. |
| GpuClient.Client.Release | src/barra/barra.c:299-309 | Exactly the listed buffers lose their handles on both sides. |
| GpuClient.Client.AllocNative | src/barra/barra.c:339-347 | A native buffer joins the agreement with a handle of its own and its own size; on failure nothing changes. |
| GpuClient.Client.LoadShader | src/barra/barra.c:310-317 | A returned shader handle names a daemon entry of that shape that was free before. |
| GpuClient.Client.UnloadShader | src/barra/barra.c:318-323 | Success means the daemon entry was in use and is free now. |
| GpuClient.Client.SetFlags | src/barra/barra.c:324-329 | Success means the daemon suppresses barriers exactly if bit 0 was set; nothing else changes. |
| GpuClient.Client.CopyBuffer | src/barra/barra.c:331-338 | A successful copy passed the daemon's range test, lies inside both buffers if offset plus length fits 64 bits, and changes no table. |
| GpuClient.Client.Ask | src/barra/barra.c:293-297 | Every request and reply is consumed to the last byte on both sides, and the reply is one the protocol allows. |
| GpuClient.Client.SendBatch | src/barra/barra.c:375-393 | The bytes written parse back into stages with the client's own shaders, groups, buffers' handles, 64-bit offsets, ranges, push constants and flags. |
| GpuClient.Serialize | src/barra/barra.c:378-390 | The serialised batch is the stages' wire form and never exceeds the buffer's computed capacity. |
| GpuClient.PutStage | src/barra/barra.c:383-388 | One stage advances the running offset by exactly its wire size. |
| GpuClient.WireOk | src/hwbridge/gpud-zc.c:463-467 | Because handles agree, a stage whose ranges lie in its buffers passes all of the daemon's checks. |
| GpuClient.StillAgree | src/hwbridge/gpud-zc.c:441-447 | Slots that a failed import leaves filled disturb no client handle. |
| GpuDaemon.Daemon.Serve | src/hwbridge/gpud-zc.c:428-555 | A whole request in, a whole reply out, nothing left unread, and tables changed only as the protocol allows. |
| Execution.RunBatch | src/hwbridge/gpud-zc.c:475-475 | A batch with the encoder's flags that the client sends, importing what it needs on the way, ends in the memory of its stages run one after another, whatever the device overlaps, provided that a shader does with the handles what the client means with the buffers. |
| Execution.FlushOverWire | src/ggml-gpud/ggml-gpud.cpp:545-565 | When the backend's pending batch is sent through the session, memory ends as the backend's own flush promises. |
| Execution.RunsAsEncoded | src/hwbridge/gpud-zc.c:403-411 | The same for the stages in the daemon's tables: bit 0 of each stage's flags and the session's flags together give the encoder's barriers. |
| Execution.RecordedBarriers | src/hwbridge/gpud-zc.c:403-411 | The daemon records a barrier in front of a stage exactly if it is not the first, the session does not suppress barriers and bit 0 of its flags on the wire is clear. |
| GpuDaemon.Daemon.ServeBatch | src/hwbridge/gpud-zc.c:458-475 | If all stages are acceptable, exactly they are run, with 64-bit offsets and push constants intact. |
| GpuDaemon.Daemon.ReadStage | src/hwbridge/gpud-zc.c:460-471 | A stage is accepted exactly if its shader, shape, grid and every binding are valid, and then all its bytes are consumed. |
| GpuDaemon.Daemon.ReadBinds | src/hwbridge/gpud-zc.c:464-468 | Bindings are accepted exactly if each lies aligned inside a buffer in use; accepted ones are those the client wrote. |
| GpuDaemon.Daemon.ServeImport | src/hwbridge/gpud-zc.c:436-447 | Buffers take the lowest free slots in order; a refusal keeps those already taken and reports failure. |
| GpuDaemon.Daemon.ServeRelease | src/hwbridge/gpud-zc.c:535-540 | Frees exactly the given slots that are in use. |
| GpuDaemon.Daemon.ServeAlloc | src/hwbridge/gpud-zc.c:476-497 | Success takes the lowest free slot with the size asked for. |
| GpuDaemon.Daemon.ServeCopy | src/hwbridge/gpud-zc.c:498-526 | Reads its three numbers in full before judging them; success means two buffers in use, and ranges inside them if offset plus length does not wrap around. |
| Requests.AcceptedCopies | src/hwbridge/gpud-zc.c:503-503 | A copy stays inside its buffers if and only if the test accepts it and both ends fit 64 bits. |
| Requests.BindingInside | src/hwbridge/gpud-zc.c:467-467 | A binding is accepted if and only if it begins on an aligned offset inside a buffer in use and reaches no byte behind its end. |
| Requests.WrappingCopyAccepted | src/hwbridge/gpud-zc.c:503-503 | A concrete copy that starts far outside its 4096-byte source passes the test, because offset plus length wraps around to 0. |
| GpuDaemon.Daemon.ServeLoad | src/hwbridge/gpud-zc.c:448-457 | Reads the program in full before looking for an entry, so a full table does not desynchronise the stream. |
| Requests.TakenSlots | src/hwbridge/gpud-zc.c:441-445 | Handles given out by an import were free, are pairwise different and hold the sizes asked for; no slot in use changes. |
| Requests.ReleasedSlots | src/hwbridge/gpud-zc.c:539-539 | Releasing frees exactly the listed slots in use. |
| Requests.AnswerShape | src/hwbridge/gpud-zc.c:447-447 | A reply carries exactly the words the client will read. |
| Wire.BindBack | src/hwbridge/gpud-zc.c:464-466 | Reading a binding's four words back rejoins its 64-bit offset. |
| Wire.SplitJoin | src/barra/barra.c:386-386 | The low and high word of an offset join to it again. |
| Wire.StagesFit | src/barra/barra.c:381-382 | n stages never take more than n * (28 + 16*16 + 128) bytes. |
| Wire.WordBack | src/hwbridge/gpud-zc.c:461-466 | Any word of a message reads back as written. |
| PipeCache.Cache.Dispatch | src/hwbridge/gpud-zc.c:285-289 | Each stage runs the pipeline built from its own program; no pin survives, whatever happens; exhaustion is reported only if the batch needs more than 16 distinct pipelines, success only if it needs at most 16. |
| PipeCache.Cache.GetPipe | src/hwbridge/gpud-zc.c:152-183 | The entry found or built holds the key and is pinned; pinned entries never change; keys in use stay unique; exhaustion means 16 other pipelines are pinned. |
| PipeCache.Cache.Victim | src/hwbridge/gpud-zc.c:157-163 | The round-robin search finds an unpinned entry whenever there is one. |
| PipeCache.Cache.Find | src/hwbridge/gpud-zc.c:154-154 | A hit holds the program asked for, given that the hash separates the programs seen; a miss means it is in no entry. |
| PipeCache.Cache.HeldKeys | src/hwbridge/gpud-zc.c:286-286 | During a dispatch the pinned keys are exactly those of the stages looked up so far. |
| PipeCache.AllDifferent | src/hwbridge/gpud-zc.c:157-163 | Sixteen pinned entries hold sixteen different keys. |
| Repack.NativeBuffer.SetTensor | src/ggml-gpud/ggml-gpud.cpp:263-285 | Stores every 210-byte block at its 224-byte place, changes no byte outside the tensor's blocks, and every COPY lies inside both buffers and is not empty. |
| Repack.NativeBuffer.GetTensor | src/ggml-gpud/ggml-gpud.cpp:286-308 | Returns the stored blocks without their padding. |
| Repack.StoredOnce | src/ggml-gpud/ggml-gpud.cpp:263-308 | What get returns after set is what was set, whatever the padding holds. |
| Repack.StoredApart | src/ggml-gpud/ggml-gpud.cpp:263-285 | Storing another tensor in a disjoint allocation does not disturb it. |
| Repack.AllocFits | src/ggml-gpud/ggml-gpud.cpp:357-361 | The allocated size is 224 bytes for each of the blocks the transfer loops count. |
| Repack.NativeBuffer.Upload | src/ggml-gpud/ggml-gpud.cpp:234-247 | The chunked upload writes exactly the data, and nothing else, whatever the staging size. |
| Repack.NativeBuffer.Download | src/ggml-gpud/ggml-gpud.cpp:248-261 | The chunked download returns exactly the device bytes. |
| Pool.EachIndexOnce | src/ggml-barra/ggml-barra.cpp:247-262 | In every interleaving, whenever run has returned, every index of every job so far has run exactly once and nothing else has run. |
| Pool.NoStaleJob | src/ggml-barra/ggml-barra.cpp:247-262 | A worker takes and runs indices only inside a run and only of that run's job; what it is about to run is in range and has not run. |
| Pool.NoLostWakeup | src/ggml-barra/ggml-barra.cpp:251-260 | A worker asleep past the current generation is always about to be notified. |
| Pool.NeverStuck | src/ggml-barra/ggml-barra.cpp:254-262 | Until run returns, some thread can take a step that makes progress. |
| Pool.RunsEnd | src/ggml-barra/ggml-barra.cpp:254-262 | Under any schedule only boundedly many progress steps pass before run returns. |
| Pool.InvStep | src/barra/prefill_chain.c:35-54 | Every atomic step of the caller and of every worker keeps the pool's invariant, for any chunk size. |
| Pool.AllRest | src/ggml-barra/ggml-barra.cpp:260-260 | When the caller has counted all workers in, none of them holds or may still take an index. |
| Pool.HeldIsFresh | src/barra/prefill_chain.c:35-35 | An index about to run is held by no other thread: claimed chunks partition the range. |
| Pool.RankStep | src/ggml-barra/ggml-barra.cpp:249-262 | No step inside a run adds work, and every step but idle sleeping removes some. |
| RankUpdate.UpdateIsNaive | src/ggml-barra/ggml-barra.cpp:277-303 | In every interleaving of the blocks' element updates each element ends as the naive loop leaves it: a left fold of A[r*lda + idx[c]] times W[c*ncol + j] over ascending channels c with a nonzero coefficient, nothing assumed of addition or multiplication. |
| RankUpdate.RankUpdate | src/ggml-barra/ggml-barra.cpp:282-303 | Run block by block, the update gives every element its naive value. |
| RankUpdate.UpdateBlock | src/ggml-barra/ggml-barra.cpp:289-302 | A block's loops perform exactly its element updates in row, channel, column order. |
| RankUpdate.Unpack | src/ggml-barra/ggml-barra.cpp:291-293 | The unpacked block holds each channel's weights of the block's columns. |
| RankUpdate.EffectAt | src/ggml-barra/ggml-barra.cpp:294-301 | An element feels only its own updates, in their order. |
| RankUpdate.ChannelsOnCell | src/ggml-barra/ggml-barra.cpp:296-300 | A row's channel sweep updates an element once per nonzero coefficient, in ascending order. |
| RankUpdate.AllBlocksInterleave | src/ggml-barra/ggml-barra.cpp:288-289 | The blocks tile the columns: each block's updates occur once, and in no other block. |
| FfnSplit.Split.Run | src/ggml-barra/ggml-barra.cpp:321-432 | Every row is listed once, written from the earliest unclipped down passes, or in neither place; the last exactly if a gate/up pass after the first failed once the row was resolved and while another row of its tile was not. |
| FfnSplit.LostExactlyWhen | src/ggml-barra/ggml-barra.cpp:394-400 | A row's fate is to be lost if and only if some pass from the second on is the first of its tile to fail, every element of the row came out unclipped before it, and some row of the tile has an element that clipped in all passes before it. |
| FfnSplit.WrittenExactlyWhen | src/ggml-barra/ggml-barra.cpp:392-428 | A row is written if and only if it is not lost and every gate/up element and every down element of it came out unclipped in some pass before the first failing one; all other rows that are not lost fall back. |
| FfnSplit.NothingLost | src/ggml-barra/ggml-barra.cpp:394-400 | If no gate/up pass after the first ever fails, every row is written or listed. |
| FfnSplit.LateFailureLoses | src/ggml-barra/ggml-barra.cpp:394-400 | A concrete run on two rows in which pass 2 fails: only the second row is listed, and the first row's output is what was there before. |
| FfnSplit.Split.Tile | src/ggml-barra/ggml-barra.cpp:321-431 | One tile lists exactly its fallback rows, writes exactly its written rows and leaves lost rows as they were. |
| FfnSplit.Split.GatePasses | src/ggml-barra/ggml-barra.cpp:392-400 | Each kept element comes from the earliest pass in which it did not clip; a failed tile lists exactly its unresolved rows. |
| FfnSplit.Split.RunGu | src/ggml-barra/ggml-barra.cpp:337-369 | A pass replaces only elements that still clip; clip flags tell exactly which rows go on. |
| FfnSplit.Split.DownPasses | src/ggml-barra/ggml-barra.cpp:418-428 | Rows still clipped at the limit or at a failure are listed; the others hold their earliest unclipped values, also when a later pass fails. |
| FfnSplit.Split.RunDn | src/ggml-barra/ggml-barra.cpp:372-390 | A down pass touches only the rows of its sub-tile that still clip. |
| FfnSplit.Split.FillSub | src/ggml-barra/ggml-barra.cpp:370-377 | All sub-tile indices stay inside the Bd-sized buffer, and no two rows share a place. |
| FfnSplit.Split.Down | src/ggml-barra/ggml-barra.cpp:416-429 | The sub-tiles cover every row of the tile once. |
| FfnSplit.GuStable | src/ggml-barra/ggml-barra.cpp:359-365 | Further passes do not change a resolved element. |
| QuantRow.Q8Row | src/ggml-barra/ggml-barra.cpp:268-272 | The row scale brings the largest magnitude to qmax, and each code is the clamped nearest integer of its scaled element. |
| QuantRow.ClampNearest | src/ggml-barra/ggml-barra.cpp:271-271 | A saturated code is the 8-bit integer nearest to the value. |
| QuantRow.NoSaturation | src/ggml-barra/ggml-barra.cpp:268-272 | If qmax over the input scale leaves room for zero point and rounding, no element saturates. |
| QuantRow.HalfStep | src/ggml-barra/ggml-barra.cpp:268-272 | An element that did not saturate comes back within half a quantisation step. |
| QuantRow.Normalised | src/ggml-barra/ggml-barra.cpp:269-271 | Before rounding no element exceeds qmax, whatever the row. |
| Huffman.Table.Build | src/container/stb_image.h:4124-4169 | Accepts exactly the length lists in which no length is over-subscribed, and then fast table, code ranges and sorted lists represent the canonical code. |
| Huffman.Table.AssignCodes | src/container/stb_image.h:4138-4151 | Code ranges, symbol offsets and shifted limits are those of the canonical assignment; rejection means some length has too many codes. |
| Huffman.Table.EnterSymbol | src/container/stb_image.h:4152-4167 | Entering one symbol keeps the tables exact for all symbols so far. |
| Huffman.Table.FillFast | src/container/stb_image.h:4159-4163 | The stride loop fills exactly the slots whose low bits are the reversed code. |
| Huffman.FastHitUnique | src/container/stb_image.h:4158-4163 | No two symbols compete for one fast-table slot. |
| Huffman.PlaceUnique | src/container/stb_image.h:4154-4157 | No two symbols share a place in the sorted lists. |
| Canonical.SymbolUnique | src/container/stb_image.h:4130-4151 | The assigned codes are prefix-free: one place of a stream holds at most one symbol. |
| Canonical.IntervalIsCode | src/container/stb_image.h:4229-4236 | The keys between two successive limits are exactly those that start with a code of that length. |
| Canonical.EncodeIsSymbols | src/container/stb_image.h:4243-4271 | A stream carries the concatenated codes of a symbol list if and only if decoding symbol by symbol finds that list. |
| Canonical.SymbolsUnique | src/container/stb_image.h:4243-4271 | Two readings of the same number of symbols from one place are equal. |
| Canonical.KeyIsWord | src/container/stb_image.h:4224-4231 | Carrying a code's bits, most significant first, is having it as the next bits' value. |
| BitReversal.BitReverseIsRev | src/container/stb_image.h:4107-4122 | The mask-and-shift reversal reverses the low bits, whatever stands above the 16th. |
| BitReader.Reader.Decode | src/container/stb_image.h:4243-4271 | Returns the symbol that stands at the front of the stream, through whichever table, and consumes exactly its bits; -1 only if no code is there or the end of the data has been noticed and passed. The end is noticed only with fewer than 16 bits left, counting the zeros put behind the data. |
| BitReader.Reader.DecodeList | src/container/stb_image.h:4243-4271 | The concatenated codes of any symbol list decode to that list and take exactly their own bits, whichever table each symbol goes through. |
| BitReader.Reader.DecodeSlow | src/container/stb_image.h:4224-4241 | The limit search finds the symbol whenever there is one. |
| BitReader.Reader.FillBits | src/container/stb_image.h:4202-4212 | The buffer keeps holding the stream's next bits and nothing else, with zeros after the end. |
| BitReader.Reader.Receive | src/container/stb_image.h:4214-4222 | Returns the next n bits, least significant first, and consumes them. |
| BitReader.FastFound | src/container/stb_image.h:4263-4269 | A nonempty fast slot names the symbol in front and its length. |
| BitReader.FastMissed | src/container/stb_image.h:4263-4270 | An empty one means that no code of at most 9 bits is there. |
| BitReader.SlowAnswer | src/container/stb_image.h:4231-4240 | The slot the slow path computes is in range and holds that symbol, so its error returns never fire for an accepted list. |
| Inflate.Inflater.ParseBlock | src/container/stb_image.h:4309-4356 | Success means a legal block stood at the old position, ends at the new one, and the output is what its tokens mean; it lies inside the data if no zeros were put behind the data unnoticed. Failure means no legal continuation lies inside the data - or, if the end of the data was not noticed, that there is none at all - or that the output could not grow. |
| BlockEnd.ReadWritten | src/container/stb_image.h:4309-4356 | A block written with accepted codes is decoded in full, to exactly what its tokens mean and from exactly its own bits, whenever the output may grow to twice its size. |
| BlockEnd.OddEndInside | src/container/stb_image.h:4321-4333 | If the code of the end mark ends in a one, every accepted block lies inside the data. |
| BlockEnd.EndInPadding | src/container/stb_image.h:4321-4333 | If it ends in a zero, for all such codes a block that is cut off one bit early is accepted, its last bit read from behind the data. |
| Inflate.WrittenFinishes | src/container/stb_image.h:4309-4356 | A block written with accepted codes decodes to what its tokens mean and takes exactly its own bits. |
| Inflate.WrittenNeverStops | src/container/stb_image.h:4309-4356 | It is never called corrupt. |
| Inflate.WrittenOverflows | src/container/stb_image.h:4273-4293 | It runs out of space only if the allocator would not grant twice its output. |
| Inflate.Inflater.Expand | src/container/stb_image.h:4273-4293 | Growth keeps all produced bytes and start <= out <= end; refusal means not expandable or more than half the allocator's limit. |
| Inflate.Inflater.CopyBack | src/container/stb_image.h:4349-4355 | The copy loop gives the byte-by-byte meaning of an overlapping copy. |
| Inflate.Inflater.CopyRun | src/container/stb_image.h:4350-4352 | The shortcut for distance 1 gives the same. |
| Inflate.Inflater.ReadMatch | src/container/stb_image.h:4336-4342 | Reads exactly one match token, or none can be read inside the data. |
| Inflate.Inflater.PutMatch | src/container/stb_image.h:4344-4355 | The output becomes the copy's meaning, after growing if needed. |
| Deflate.BlockUnique | src/container/stb_image.h:4309-4356 | A bit position holds at most one block. |
| Deflate.BlockBitsStand | src/container/stb_image.h:4309-4356 | The bits an encoder writes for tokens and end mark are read back as that block. |
| Deflate.BlockedExcludes | src/container/stb_image.h:4314-4343 | Where decoding has to stop, no legal block inside the data goes through. |
| Deflate.TokenUnique | src/container/stb_image.h:4313-4343 | One place of a stream holds at most one token. |
| Deflate.EveryDistance | src/container/stb_image.h:4303-4307 | The distances are exactly those from 1 to 32768, and each has one symbol and one value of its extra bits. |
| Deflate.EveryLength | src/container/stb_image.h:4295-4301 | The lengths from 3 to 258 are exactly those of the symbols below 285, each with one symbol and one value of its extra bits, and symbol 285 is length 258 without extra bits. |
| Deflate.ExtraBits | src/container/stb_image.h:4300-4307 | Distance symbols have one more extra bit every two, length symbols every four. |
| Deflate.LengthsAreCumulative | src/container/stb_image.h:4295-4301 | Consecutive length symbols cover consecutive ranges. |
| Deflate.DistancesAreCumulative | src/container/stb_image.h:4303-4307 | Consecutive distance symbols cover consecutive ranges. |
| Unfilter.ImageRoundTrip | src/container/stb_image.h:4737-4787 | Any rows come back from their filtered form, whatever filter was chosen for each row. |
| Unfilter.ReconInverts | src/container/stb_image.h:4754-4785 | Reconstruction inverts filtering for every type, width and pixel stride. |
| Unfilter.Paeth | src/container/stb_image.h:4657-4668 | Equals the standard's predictor, ties included, on all integers. |
| Unfilter.Lines.Row | src/container/stb_image.h:4751-4785 | The loops give the reconstruction of the row; the first row's substitute filters equal an all-zero row above and never read it. |
| Unfilter.Lines.PaethRow | src/container/stb_image.h:4774-4779 | Both Paeth loops together reconstruct the row and leave the line above alone. |
| Unfilter.Lines.AvgFirstRow | src/container/stb_image.h:4780-4784 | The synthetic first-row filter is the average filter under zeros. |
| PngImage.DecodeRaw | src/container/stb_image.h:4696-4858 | Reports exactly which of output too large, input too large, missing data, bad filter or success applies, and on success the output is the pixels of the reconstructed rows. |
| PngImage.NeighbourByte | src/container/stb_image.h:4708-4735 | The filters look back to the same byte of the same channel of the pixel on the left, and to none in the first pixel. |
| PngImage.CheckedExactly | src/container/stb_image.h:4713-4726 | The chain of overflow checks decides exactly whether output and input sizes fit. |
| PngImage.SizesFit | src/container/stb_image.h:4704-4729 | After the checks the input length fits 32 bits, and both work lines and every output row end inside 31 bits. |
| PngImage.RowDecoder.Rows | src/container/stb_image.h:4737-4830 | With two alternating lines the whole image is reconstructed; it fails exactly if a filter type is above 4. |
| PngImage.RawRoundTrip | src/container/stb_image.h:4696-4858 | Decoding gives back the rows an encoder wrote, also with data after them. |
| PngRows.EmitRow | src/container/stb_image.h:4789-4827 | A line becomes its samples, with an opaque byte per pixel if asked, and nothing else in the output changes. |
| PngRows.ExpandColor | src/container/stb_image.h:4685-4692 | Inserting alpha from the last pixel to the first is right even if source and destination are the same memory. |
| PngRows.ExpandGray | src/container/stb_image.h:4679-4683 | The same for one channel. |
| PngRows.EmitWide | src/container/stb_image.h:4827-4852 | 16-bit lines become the platform's byte order, pixel by pixel, with two opaque bytes where asked. |
| PngRows.NativeValue | src/container/stb_image.h:4832-4849 | Every 16-bit sample keeps its value. |
| PngRows.UnpackRow | src/container/stb_image.h:4797-4817 | The shifting loops write every packed sample, scaled. |
| PngRows.BrightestIsWhite | src/container/stb_image.h:4670-4670 | Scaling takes the brightest gray sample of 1, 2 or 4 bits to 255 and leaves palette indices alone. |
| PngRows.RowHolds | src/container/stb_image.h:4718-4718 | A scanline is as long as its samples need, rounded up to whole bytes. |
| PngRows.DigitsOfByte | src/container/stb_image.h:4797-4809 | The samples of 4 or 2 bits are the byte's digits, the first one highest. |
| PngRows.BitsOfByte | src/container/stb_image.h:4810-4817 | The same for single bits. |
| Adam7.Deinterlace | src/container/stb_image.h:4870-4902 | Success means all passes decoded and every output pixel holds its pass's pixel; failure names a pass that does not decode. |
| Adam7.ImagePixel | src/container/stb_image.h:4873-4896 | Every output pixel is written by exactly the pass of the standard's pattern, from exactly one place. |
| Adam7.PassPixel | src/container/stb_image.h:4873-4896 | Every pass pixel lands inside the image, on a pixel of that pass. |
| Adam7.Advance | src/container/stb_image.h:4883-4899 | The advance of the input pointer is what the row decoder consumed for the pass. |
| Adam7.PatternRule | src/container/stb_image.h:4873-4876 | The start and spacing tables describe the standard's 8 by 8 pattern. |
| Adam7.SpreadPass | src/container/stb_image.h:4888-4896 | Spreading a pass sets exactly its own pixels. |
| Adam7.UnderwayPresent | src/container/stb_image.h:4882-4900 | One pass more is in place, and the data pointer stands at the next. |
| Json.RoundTrip | src/barra-llm/barra-chat.c:47-61 | A line that carries the written literal after the first key, whatever stands before the key and behind the literal and with any blanks between, prints the text less its carriage returns, and the history scan cuts out exactly what was written between the quotes. |
| Json.WritesJson | src/barra-llm/barra-chat.c:24-35 | What is written between the quotes is in the grammar of JSON strings. |
| Json.JsonStr | src/barra-llm/barra-chat.c:24-35 | The literal and its final zero fit into 6n + 3 bytes. |
| Json.EmitContent | src/barra-llm/barra-chat.c:47-61 | Prints the unescaped string after the first content key. |
| JsonMeaning.PrintedExactly | src/barra-llm/barra-chat.c:47-61 | Every string of the JSON grammar is printed to its end, and what is printed is its UTF-8 meaning if and only if it has no escape for backspace, form feed, carriage return or a surrogate. |
| JsonMeaning.Utf8Back | src/barra-llm/barra-chat.c:55-55 | The bytes printed for a code unit carry it by the table of section 3 of RFC 3629, and are a character by its grammar if and only if it is no surrogate. |
| JsonMeaning.DigitsExactly | src/barra-llm/barra-chat.c:55-55 | Four bytes are read as a value if and only if they are its hexadecimal digits, the highest first, in either case. |
| JsonMeaning.OneForm | src/barra-llm/barra-chat.c:55-55 | No code point has two forms in UTF-8. |
| JsonMeaning.ReturnMisprinted | src/barra-llm/barra-chat.c:53-56 | At a concrete input: an escaped carriage return is printed as the letter r. |
| JsonMeaning.PairMisprinted | src/barra-llm/barra-chat.c:55-55 | At a concrete input: an escaped character outside the basic plane is printed as six bytes that are not UTF-8. |
| Json.CollectContent | src/barra-llm/barra-chat.c:102-105 | Cuts the string at its closing quote, still escaped. |
| Json.StringBack | src/barra-llm/barra-chat.c:50-59 | Unescaping inverts escaping, and reader and scan stop at the same quote. |
| Json.EscapeBack | src/barra-llm/barra-chat.c:26-33 | Every byte but a carriage return survives its own escape. |

## Left out

- Vulkan, ioctl, mmap, file descriptors and socket errors: the pipes are byte queues and driver calls may refuse, but not fail half-way.
- A failed flush inside the encoder and failed scratch growth: they fall into the CPU path with stages pending (src/ggml-gpud/ggml-gpud.cpp:573-581).
- Backend.Backend.GraphCompute: assumes that every batch and every scratch allocation succeeds, for that reason.
- Shader and TPU arithmetic: a node's result is an arbitrary function of the bytes it reads.
- The experimental flash-attention operation and the ggml glue around buffers.
- The caches' flush and invalidate calls around a batch: device and CPU see one memory.
- Requests that the daemon rejects in mid-message: the stream is not aligned afterwards.
- GpuDaemon.Daemon.Serve: assumes a batch whose stages are all acceptable, and covers the eight requests the client sends, not EXIT and not the older dispatch command without flags.
- GpuClient.Client.LoadShader: assumes a program of at most 16 MB, the daemon's limit, which the client does not check.
- GpuClient.Client.Release: the branch for a failed release is not modelled, because the daemon never reports one.
- Float rounding: row quantisation is modelled over the reals, with some nearest integer for lrintf.
- The hash function of the pipeline cache, and the shader objects behind its entries.
- Repack.NativeBuffer.SetTensor: whole tensors only, as the code demands; the memset and clear paths are not modelled.
- Generation counters and index counters of the pools are unbounded, and memory is sequentially consistent; the pool's destructor is not modelled.
- SmoothQuant scaling and the outlier correction in the FFN path: they change values, not which rows and elements are kept.
- The fused FFN variant, whose fallback list can name a row twice.
- BitReader.Reader.FillBits: the test for stray bits above the buffered ones is not modelled, because it never fires.
- Inflate.Inflater.ParseBlock: assumes code lists that the table builder accepted; stored blocks, dynamic headers, the zlib header and the loop over blocks are not modelled.
- PngImage.DecodeRaw: images of at least one pixel, as the header check leaves them; 16-bit output is taken to be little-endian.
- Palettes, transparency, chunk parsing and CRCs of PNG.
- Json.EmitContent: assumes that every \u escape has its four digits, because the code reads an unset variable otherwise.
- The HTTP exchange, the growing history buffer and the terminal of the chat client.
- JPEG, GIF and the other formats of the vendored decoder, and its SIMD variants: not compiled.
