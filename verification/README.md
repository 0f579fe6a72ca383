# TyBoK: models and proofs

TyBoK serves robot policies: a gateway (one in Python, one in C++) takes WebSocket
messages with camera images, hands them to one inference worker over a byte protocol, and
sends the worker's action chunk back. This project models the exact, stateful and
arithmetic parts around the networks and proves what they promise, for all inputs and all
runs. `dafny verify dfyconfig.toml` checks everything.

| part | files |
|---|---|
| fp8 rounding, activation quantisation | Powers, Fp32, Fp8, Nearest, Rounding, Quantize |
| gateway and worker as a protocol: lock, retries, reader queue, ring of slots | WorkerLink, WorkerLinkSafety, WorkerLinkCapacity, WorkerLinkOnce, CppLink |
| C++ connection: reader thread, queue, two-deep pipeline, decode pool | Pipeline, DecodePool |
| JSON: reader, writer, source spans, the spliced response | Json, JsonLocality, JsonMaps, JsonRoundTrip, JsonParser, JsonWriter, Splice |
| WebSocket messages, length-prefixed frames, request frames, base64 | WebSocket, Framing, Protocol, RequestEncoding, Base64 |
| the in-place macro patcher | MacroPatch, MacroText |
| snapshots of aliasing tensors, recorded phases | Snapshot, PhaseCheck |
| tiled GEMM, packed and stacked projections | Gemm, Packing, PackTree |
| control loop: prefix weights, guidance, action queue, noise prefetch, resize | Rtc, ActionQueue, NoisePrefetch, Doubles, ResizeSizes, Resize |

Wrappers holds the optional value, the result and the element count of a shape.

## Conventions

- A protocol is a state machine: one action is one atomic step of one party, a run is any
  legal sequence of actions, and a theorem about runs holds for every interleaving,
  failure and reconnect. A condition-variable wait is written out as falling asleep and
  being notified.
- Code that changes objects, buffers or pointers is a class or a method over an array,
  proved against a function of its input; the laws are lemmas about that function.
- Bytes are integers below 256, or characters in text formats. Fixed-width arithmetic is
  written out (bit patterns of floats, the wrapping base64 accumulator, 32-bit lengths).
  Tensor arithmetic is exact, over the reals, unless rounding is the subject, as in Fp8,
  Rounding, Quantize and ResizeSizes.
- What the model cannot see is a parameter: the output cast and row product of a GEMM,
  expm1, the bodies of phases, json.dumps and json.loads.

## What the proofs show about the code

- The Triton and the CUDA fp8 cast give the same byte for every finite float except at
  magnitude 464, where Triton rounds the tie to the largest finite code and CUDA returns
  NaN (`Fp8.CastsAgreeExceptAt464`). The quantiser never gets there, however its divisions
  are rounded (`Quantize.ElementError`).
- The shared-memory ring is safe exactly when clients times the in-flight bound is at most
  the number of slots (`WorkerLinkCapacity.RingSafeExactlyWhen`): with the defaults, two
  connections. The comment at tybok/worker.py:65 credits the worker's bounded queue, but the
  Python gateway writes a slot before it takes the lock, so that bound does not protect it.
- A retry after a lost reply makes the worker process a request again, so that one request
  may step the policy up to three times: once, and once more for each of its own frames
  whose connection failed (`WorkerLinkOnce.ProcessedExactlyWhen`).
- In the C++ connection the pops do not notify. Without spurious wake-ups the connection can
  hang with messages unanswered, or end without joining its reader, exactly when a client
  may have more than eight messages outstanding (`Pipeline.HangsExactlyWhen`).
- The K loop of the GEMM has no mask in K: every cell is the full dot product for all
  operands exactly when BLOCK_K divides K, even with nothing but zeros behind the tensors
  (`Gemm.RightExactlyWhen`, `Gemm.RightOnTensorsExactlyWhen`).
- Cloning tensor by tensor, which the comment in `_snapshot` warns of, goes wrong exactly when
  two elements share a byte, be it of one name (an expanded tensor) or of two
  (`Snapshot.PerTensorCloneFaithfulExactlyWhen`).
- `_cat_fp8_rows` asks only the first part whether there is a bias: packing is faithful
  exactly when no later non-zero bias is lost (`Packing.PackedFaithfulExactlyWhen`).
- The prefetched noise follows the eager sequence exactly when no implicit request falls
  back to the eager path while noise is staged (`NoisePrefetch.SameNoiseExactlyWhen`). The
  docstring at tybok/policies/smolvla/engine.py:486-488 claims it without that condition.
- Patching a macro with its current values leaves the text literally identical only if
  they are spelled canonically, without leading zeros or -0
  (`MacroPatch.IdentityExactlyWhen`); the docstring at
  tybok/policies/fastwam/kernels/sweep.py:203-204 claims it always. Numbers that touch
  can merge when patched (`MacroPatch.ReadsBackExactlyWhen`).
- The C++ receiver ignores a payload behind the header it was sent, so it stays in step
  exactly with frames that have none (`Framing.CppInStep`); responses have none. It compares
  no ids and does not drain what it refuses: replies match requests exactly when none is
  over 1 MiB (`CppLink.MatchesExactlyWhen`), a limit the worker keeps.
- The resized image need not fill its target in any direction: the second division of the
  sizes may round below the target, as for 58 x 58 into 224 x 224
  (`ResizeSizes.FiftyEight`). It never exceeds it (`ResizeSizes.BothSides`).
- At tau = 1 the guidance weight is 0, not its maximum
  (`Rtc.GuidanceBoundedExactlyWhen`).

## Model

| member | source | states |
|---|---|---|
| `Powers.BiasTrick` | tybok/policies/fastwam/models/fp8_linear.py:157-158 | adding 2^(s-1)-1 plus the lowest kept bit and shifting right by s rounds to the nearest integer, ties to even, for every shift width s |
| `Fp8.CodeFormula` | tybok/policies/fastwam/models/fp8_linear.py:157-176 | the code table, defined by doubling every eight codes, is mantissa/8 below the first binade and 1.mantissa times a power of two above it |
| `Fp8.MagicSum` | tybok/policies/fastwam/models/fp8_linear.py:162-165 | adding a float whose spacing is the subnormal step rounds a small value to that grid, ties to even, and the sum is exact enough to read the count off its bits |
| `Fp8.TritonRoundsToNearest` | tybok/policies/fastwam/models/fp8_linear.py:139-176 | for every magnitude up to 464 the Triton cast gives the e4m3 code nearest to the value, ties to even, across all binades, the carry into the next one and the subnormal boundary |
| `Fp8.TritonByte` | tybok/policies/fastwam/models/fp8_linear.py:139-176 | the whole byte: the sign bit, and that nearest code below it |
| `Fp8.CudaSubnormalExact` | tybok/policies/fastwam/kernels/dit_common.h:16 | the subnormal path returns 0x400000 plus the rounded count of steps |
| `Fp8.CudaRoundsToNearest` | tybok/policies/fastwam/kernels/dit_common.h:11-21 | below 464 the CUDA result is the nearest code, or that code plus 0x400000 |
| `Fp8.CudaByte` | tybok/policies/fastwam/kernels/dit_common.h:11-21 | after the final truncation the byte is the sign and the nearest code, for every magnitude below 464 |
| `Fp8.NearestUnique` | tybok/policies/fastwam/models/fp8_linear.py:139-176 | nearest with ties to even determines the code: any two casts that meet it are equal |
| `Fp8.CastsAgreeExceptAt464` | tybok/policies/fastwam/kernels/dit_common.h:15-20 | on all finite floats the two casts give the same byte if and only if the magnitude is not 464 |
| `Fp8.TritonMonotone` | tybok/policies/fastwam/models/fp8_linear.py:139-176 | a larger finite magnitude never gets a smaller code, saturation included |
| `Quantize.BridgeToBits` | tybok/policies/fastwam/models/fp8_linear.py:139-176 | the bit-level cast equals a search for the nearest entry in the table of real code values |
| `Quantize.EncodeExactlyWhen` | tybok/policies/fastwam/models/fp8_linear.py:139-176 | a code is the nearest in the table of real code values, ties to even, if and only if it is the one the reference rounding finds |
| `Quantize.EncodeError` | tybok/policies/fastwam/models/fp8_linear.py:139-176 | up to 464 that nearest code is within max(t/16, half a step) of t and is never the overflow code |
| `Rounding.NearestIsAccurate` | tybok/policies/fastwam/models/fp8_linear.py:205-209 | rounding a quotient to the nearest binary32 number, whatever it does with ties, is off by at most 2^-22 of it, or 10^-37 where floats end |
| `Quantize.CastIsTriton` | tybok/policies/fastwam/models/fp8_linear.py:209-210 | where the rounded quotient is the float with bits ab, the code is what the Triton cast computes from ab, sign included |
| `Quantize.AmaxPass` | tybok/policies/fastwam/models/fp8_linear.py:180-192 | the atomic maxima of the K slices, in any order of the programs, leave the exact largest magnitude of each row |
| `Quantize.ScaleRight` | tybok/policies/fastwam/models/fp8_linear.py:204-205 | 448 scales are the row maximum up to the accuracy of a division, and exactly it if division is exact; a row below 448 * 10^-12 gets 10^-12 |
| `Quantize.TopCode` | tybok/policies/fastwam/models/fp8_linear.py:204-210 | with exact division the largest element of a row gets the largest code and comes back as it was |
| `Quantize.CastPass` | tybok/policies/fastwam/models/fp8_linear.py:196-215 | every element gets the cast of its rounded quotient by the row scale, and the scale is stored, whatever the order of the programs |
| `Quantize.ElementError` | tybok/policies/fastwam/models/fp8_linear.py:204-210 | with scale and quotient rounded by any accurate division, the quotient never reaches the overflow code, and the element comes back within 1.00001 times max(|x|/16, scale/1024); within that bound itself if division is exact |
| `Quantize.QuantizeAct` | tybok/policies/fastwam/models/fp8_linear.py:223-243 | both passes together, for any accurate rounding of the divisions: 448 scales are the row maximum up to that accuracy, no code is the overflow code, and each element comes back within 1.00001 times max(|x|/16, scale/1024); over the reals within just that bound, with the exact scale and the largest element unchanged |
| `Gemm.OneTile` | tybok/policies/fastwam/models/fp8_linear.py:46-53 | every output index lies in exactly one tile |
| `Gemm.BlockIsDot` | tybok/policies/fastwam/models/fp8_linear.py:55-65 | a block loaded through pointers moved by the column stride is its part of the dot product of the rows in flat memory |
| `Gemm.Accumulate` | tybok/policies/fastwam/models/fp8_linear.py:46-65 | the K loop, its two pointers moving by BLOCK_K columns a turn, accumulates the dot product of every unmasked row and column over whole blocks, and zero elsewhere |
| `Gemm.Program` | tybok/policies/fastwam/models/fp8_linear.py:37-81 | one program stores scale, bias and residual applied to what its loop accumulated in its tile, and leaves every other cell |
| `Gemm.FpGemm` | tybok/policies/fastwam/models/fp8_linear.py:87-135 | any order of programs covering the grid fills every cell from the dot product over ceil(K/BLOCK_K) blocks; when BLOCK_K divides K that is the full dot product times both scales plus bias and residual, cast once |
| `Gemm.PlainCell` | tybok/policies/fastwam/models/fp8_linear.py:67-70 | with scales 1, bias 0 and no residual a cell is the dot product |
| `Gemm.BiasRaisesColumn` | tybok/policies/fastwam/models/fp8_linear.py:69-70 | raising one bias raises exactly its column by as much |
| `Gemm.ResidualAdds` | tybok/policies/fastwam/models/fp8_linear.py:71-77 | a residual adds its own element |
| `Gemm.ScalesMultiply` | tybok/policies/fastwam/models/fp8_linear.py:67-70 | with neither a cell is proportional to the scales of its row and its column |
| `Gemm.RightExactlyWhen` | tybok/policies/fastwam/models/fp8_linear.py:60-65 | for all operands in memory of any strides, every cell is the full dot product if and only if BLOCK_K divides K |
| `Gemm.RightOnTensorsExactlyWhen` | tybok/policies/fastwam/models/fp8_linear.py:60-65 | the same for contiguous operands of two rows or more with nothing but zeros behind them: what is added by mistake is the next row |
| `Packing.LosslessFp8` | tybok/policies/fastwam/models/fp8_linear.py:323-346 | where quantisation loses nothing, an fp8 layer is the plain layer of the weights its rows and scales stand for |
| `Packing.PackedFaithfulExactlyWhen` | tybok/policies/fastwam/models/dit_block.py:455-470 | slicing one product over row-concatenated layers gives every part its own output, for all arithmetic and inputs, if and only if no non-zero bias is dropped (the first part decides whether there is one) |
| `Packing.SecondBiasLost` | tybok/policies/fastwam/models/dit_block.py:462-469 | for instance of two layers only the second has a bias, and loses it |
| `PackTree.ChunksAreParts` | tybok/policies/fastwam/models/dit_block.py:118-126 | chunking the packed output of equally sized layers gives the separate outputs |
| `PackTree.Attention.PackSelfQkv` | tybok/policies/fastwam/models/dit_block.py:487-493 | the attributes after packing a self attention: qkv set, q, k and v deleted |
| `PackTree.Attention.PackCrossKv` | tybok/policies/fastwam/models/dit_block.py:494-499 | the attributes after packing a cross attention: kv set, k and v deleted, q kept |
| `PackTree.MixedLeftAlone` | tybok/policies/fastwam/models/dit_block.py:488-499 | an attention with a layer that is not fp8 keeps its attributes, any other gets one layer for three or two |
| `PackTree.PackFp8` | tybok/policies/fastwam/models/dit_block.py:473-502 | below a root that is no block itself every attention of all-fp8 layers is packed, mixed ones are left alone, and the packed ones are counted; called on a block it packs nothing |
| `PackTree.PackingKeepsProjections` | tybok/policies/fastwam/models/dit_block.py:118-157 | qkv_proj of every self attention, kv_proj and q of every cross attention are unchanged by packing |
| `PackTree.StackedContext` | tybok/policies/fastwam/models/fused_action_pre.py:71-83 | the columns of layer l in the product over all layers' stacked kv rows are layer l's own kv output |
| `WorkerLink.ShapeKept` | tybok/gateway.py:120-159 | every step of gateway, lock, socket, reader queue and worker keeps the state well formed: every frame names a slot that exists and holds its bytes, and a reader queues two frames at most |
| `WorkerLinkSafety.EveryRunMatches` | tybok/gateway.py:120-159 | in every run with failures and reconnects each response delivered carries its request's id and answers that request's last send, the id check never fails, and no request is sent more than three times |
| `WorkerLinkSafety.OutstandingIntact` | tybok/gateway.py:190-208 | while no more requests are outstanding than slots, each outstanding request's slot holds its own bytes |
| `WorkerLinkSafety.WindowRunsSafe` | tybok/gateway.py:161-208 | in every run that stays within the window no response, delivered or about to be, was computed from other bytes than its request encoded, although slots are written before the lock is taken |
| `WorkerLinkSafety.WindowRunsDeliver` | tybok/worker.py:420-432 | and if the worker reports no error, every response delivered was computed from exactly the request's own bytes, by slot and inline alike |
| `WorkerLinkOnce.ProcessedBound` | tybok/worker.py:420-432 | no run processes a request more often than it was sent, three times at most |
| `WorkerLinkOnce.ProcessedPerLoss` | tybok/gateway.py:120-158 | a request is processed at most once more than connections failed after one of its own frames went out, and at least once if it is delivered, whatever happens to other requests |
| `WorkerLinkOnce.DeliveredLate` | tybok/gateway.py:122-141 | runs in which one, two and three attempts are all processed: a retry may repeat an inference |
| `WorkerLinkOnce.ProcessedExactlyWhen` | tybok/gateway.py:122-141 | a delivered request with at most a given number of such failures, two at most, is processed at most a given number of times in every run if and only if the second number is greater; without one, exactly once |
| `WorkerLinkCapacity.BoundedRunInWindow` | tybok/gateway.py:467-473 | the per-connection bound on tasks in flight keeps every run within the window when clients times bound is at most the number of slots |
| `WorkerLinkCapacity.TooFewSlots` | tybok/worker.py:65-66 | with fewer slots a run without failures and errors exists in which a request is answered from another request's bytes |
| `WorkerLinkCapacity.RingSafeExactlyWhen` | tybok/worker.py:65-66 | the ring is safe in every run, and delivers each request's own result in every run without errors, if and only if clients times max_inflight is at most the number of slots |
| `Pipeline.EveryRunOrdered` | gateway_cpp/src/main.cpp:415-540 | in every interleaving answered, current, next, queued and held messages are, in this order, exactly the messages received; the queue never exceeds eight; decode jobs stay with their message |
| `Pipeline.AnswersMatch` | gateway_cpp/src/main.cpp:509-537 | the i-th response answers the i-th text message from its own decode jobs |
| `Pipeline.CleanEnd` | gateway_cpp/src/main.cpp:528-537 | when the loop ends with the stream, every text message received was answered |
| `Pipeline.BrokenEnd` | gateway_cpp/src/main.cpp:509-513 | it ends otherwise only with the response to the oldest unanswered message in hand |
| `Pipeline.FirstFetch` | gateway_cpp/src/main.cpp:486-507 | only before any answer is a message fetched together with a look ahead |
| `Pipeline.NotHeldBack` | gateway_cpp/src/main.cpp:461-465 | whenever the loop waits for a message, all received messages outside the reader's hands are answered |
| `Pipeline.HungExactlyWhen` | gateway_cpp/src/main.cpp:426-459 | messages are unanswered and no step of the gateway is possible if and only if reader and loop both sleep on the condition variable |
| `Pipeline.HangsExactlyWhen` | gateway_cpp/src/main.cpp:426-540 | pops do not notify: without spurious wake-ups a state with messages unanswered and no gateway step possible is reachable if and only if the client may have more than eight outstanding, and so is one in which the loop is over and its reader is never joined |
| `DecodePool.EachJobOnce` | gateway_cpp/src/main.cpp:61-87 | in every interleaving each job is started at most once, its future holds its own result, and a pool whose threads have left has run every job |
| `DecodePool.CanFinish` | gateway_cpp/src/main.cpp:45-87 | a pool of one thread or more can take any number of jobs, run them all and be destroyed |
| `DecodePool.SlotKeyIs` | gateway_cpp/src/main.cpp:98-105 | the short and the full name of a camera have one key, the full name |
| `DecodePool.Gather` | gateway_cpp/src/main.cpp:236-264 | the nested loops list the decoded cameras per specification entry and the entries without one |
| `DecodePool.GatherInOrder` | gateway_cpp/src/main.cpp:236-264 | whatever order the jobs were sent in, decoded cameras come once each in specification order and exactly the others are missing, when the slots are distinct |
| `Json.Utf8Decodes` | gateway_cpp/src/json.cpp:124-133 | an escaped code point is written as its UTF-8, in one, two or three bytes |
| `JsonRoundTrip.StringReads` | gateway_cpp/src/json.cpp:10-35 | every byte string survives escape and parse_string |
| `JsonRoundTrip.DumpReads` | gateway_cpp/src/json.cpp:37-73 | what dump writes for a value reads as that value up to the last byte |
| `JsonRoundTrip.ParseDump` | gateway_cpp/src/json.cpp:245-255 | parse(dump(v)) == v for every nested value with integers within 9e15 |
| `JsonLocality.NumberPrefixStable` | gateway_cpp/src/json.cpp:218-239 | the prefix of a token that strtod takes is a number it takes whole |
| `JsonLocality.ValueLocal` | gateway_cpp/src/json.cpp:147-242 | a value that consumed some bytes reads the same before any text that does not continue a number |
| `JsonLocality.CutOut` | gateway_cpp/src/json.cpp:147-242 | the consumed bytes, cut out, read as the same value |
| `JsonParser.Parser.SkipWs` | gateway_cpp/src/json.cpp:81-83 | the pointer ends at the first byte that is not white space |
| `JsonParser.Parser.ParseString` | gateway_cpp/src/json.cpp:90-145 | pointer, result and first error are those of the reading function, for every escape and error |
| `JsonParser.Parser.ParseHex` | gateway_cpp/src/json.cpp:113-123 | four hex digits in either case, or the error at the first that is none |
| `JsonParser.Parser.ParseEscape` | gateway_cpp/src/json.cpp:100-139 | each escape, with a code point below 0x10000 written as UTF-8 |
| `JsonParser.Parser.ParseNumber` | gateway_cpp/src/json.cpp:218-239 | the maximal run is scanned and cut back to strtod's prefix |
| `JsonParser.Parser.ParseItems` | gateway_cpp/src/json.cpp:182-193 | the loop over elements computes the reading function and its elements' spans read as these elements |
| `JsonParser.Parser.ParseArray` | gateway_cpp/src/json.cpp:177-194 | the same for the whole array, empty or not |
| `JsonParser.Parser.ParseMembers` | gateway_cpp/src/json.cpp:158-175 | the loop over members computes the reading function, each assigned into a sorted map whose values' spans read as these values |
| `JsonParser.Parser.ParseObject` | gateway_cpp/src/json.cpp:153-176 | the same for the whole object, empty or not |
| `JsonParser.Parser.ParseValue` | gateway_cpp/src/json.cpp:147-242 | the recursive descent terminates and computes the reading function: value, position, span or first error |
| `JsonParser.ParseText` | gateway_cpp/src/json.cpp:245-255 | parse accepts exactly one value with white space around it, and otherwise reports the first error or trailing characters |
| `JsonParser.EverySpanRereads` | gateway_cpp/src/json.cpp:147-242 | the raw span of every sub-value, as a text of its own, reads as that sub-value |
| `JsonMaps.InsertSorted` | gateway_cpp/src/json.cpp:167 | assigning a key keeps a map's members in strictly increasing byte order |
| `JsonMaps.FindInsertAll` | gateway_cpp/src/json.cpp:167 | looking a key up after any assignments finds the last one to it |
| `JsonWriter.WriteEscaped` | gateway_cpp/src/json.cpp:10-35 | the appending loop computes the escaped string |
| `JsonWriter.Write` | gateway_cpp/src/json.cpp:37-73 | the recursive appending writer computes the dumped text |
| `Splice.Finalize` | gateway_cpp/src/main.cpp:366-400 | on values: whatever JSON the worker replies, the client reads under action and shape what the reply has under data and there (or an empty array), and the gateway's own fields; or the reply's error, or that it could not be parsed |
| `Splice.ResponseRelaysAction` | gateway_cpp/src/main.cpp:381-399 | the spliced response parses, and under action and shape stand the parsed values whose source spans were copied |
| `Splice.ResponseForAnyClient` | gateway_cpp/src/main.cpp:381-399 | every client whose reader reads an object from what it reads its members as, however strict, reads the response as the object with its own reading of the worker's bytes under action and shape |
| `Splice.CppCompositional` | gateway_cpp/src/json.cpp:153-176 | the reader of json.cpp is one of these |
| `WebSocket.DecodeEncode` | gateway_cpp/src/ws.cpp:147-178 | decoding a frame inverts encoding for all three length encodings, masked or not |
| `WebSocket.ServerFrameReads` | gateway_cpp/src/ws.cpp:113-129 | what send_frame writes reads back, for all three length encodings |
| `WebSocket.Reassembles` | gateway_cpp/src/ws.cpp:142-213 | however a message is cut into fragments with pings and pongs between, reading gives its bytes and first opcode, one pong for each ping in order, and stops just after the final frame |
| `WebSocket.OnlyFragments` | gateway_cpp/src/ws.cpp:180-212 | a message is returned only for a correctly fragmented sequence of frames |
| `WebSocket.Connection.SendFrame` | gateway_cpp/src/ws.cpp:113-129 | the pushed bytes are the server frame |
| `WebSocket.Connection.ReadFrame` | gateway_cpp/src/ws.cpp:147-178 | header, extended length, size limit, mask and in-place unmasking compute the decoded frame or its error |
| `WebSocket.Connection.ReadMessage` | gateway_cpp/src/ws.cpp:142-213 | the loop computes the reassembly: payload, opcode, bytes sent, position, and each error |
| `Framing.PackedIsRead` | tybok/protocol.py:65-69 | a packed frame is read back whole from the front of any stream, unless it exceeds 1 GiB |
| `Framing.SplitConcat` | tybok/worker.py:84-112 | a stream of well-formed frames splits into exactly these frames, in order |
| `Framing.SplitCut` | tybok/worker.py:95-111 | a stream that ends inside a frame gives exactly the frames before it |
| `Framing.Socket.WorkerReadFrame` | tybok/worker.py:84-112 | however receives cut the stream, the preallocated buffer ends up as the next frame and the position at its end |
| `Framing.Socket.GatewayReadFrame` | tybok/gateway.py:228-245 | the appending reader returns the same frame and position |
| `Framing.Socket.ReadAllFrames` | tybok/worker.py:408-416 | the reading loop returns all frames of the stream in order |
| `Framing.Socket.CppReceiveBody` | gateway_cpp/src/worker.cpp:45-67 | only the header is received, under the code's length checks, and what is left unread in each case |
| `Framing.CppInStep` | gateway_cpp/src/worker.cpp:45-67 | after it the stream stands at a frame boundary if and only if the frame has no payload |
| `CppLink.MatchesExactlyWhen` | gateway_cpp/src/worker.cpp:124-157 | calls one after the other each read the reply to their own request if and only if no reply is over 1 MiB |
| `CppLink.CallsFail` | gateway_cpp/src/worker.cpp:45-67 | a refused reply is not drained: while its text lasts every call fails, eight bytes each |
| `CppLink.StaleReply` | gateway_cpp/src/worker.cpp:124-157 | ids are not compared: after that a call may read the reply to a request long before its own |
| `Protocol.RangesTile` | tybok/protocol.py:252-264 | the tensors' ranges follow each other without gap or overlap and end with the payload |
| `Protocol.PayloadSlice` | tybok/protocol.py:252-264 | each tensor's range of the payload holds its bytes |
| `Protocol.TensorsDecode` | tybok/protocol.py:305-320 | the decoded tensors are the encoded ones in whatever order the header lists them |
| `Protocol.InlineFields` | tybok/protocol.py:144-156 | the inline header reads back as the request, of type infer, with its rtc block and no slot |
| `Protocol.SlotFields` | tybok/protocol.py:121-133 | the slot header too, with the slot and an rtc block only where there is one |
| `Protocol.CppHeaderFields` | gateway_cpp/src/main.cpp:356-364 | and the C++ gateway's, without rtc block and slot |
| `Protocol.InlineRoundTrip` | tybok/protocol.py:144-169 | decode_request inverts encode_request with the payload inline |
| `Protocol.SlotRoundTrip` | tybok/protocol.py:116-142 | and with the payload in a slot that still holds it: both transports decode alike |
| `Protocol.SlotWithoutRegion` | tybok/protocol.py:294-300 | a frame that needs the region is refused without one |
| `Protocol.CppRoundTrip` | gateway_cpp/src/main.cpp:321-364 | the C++ gateway's frame, with sorted keys, decodes to the same tensors |
| `RequestEncoding.CppHeaderText` | gateway_cpp/src/main.cpp:356-372 | the header the C++ gateway dumps parses back to that header |
| `RequestEncoding.TensorLayout` | tybok/protocol.py:244-264 | the loop computes specs with running offsets, or stops at an unknown dtype |
| `RequestEncoding.WriteTensors` | tybok/protocol.py:138-141 | the copying loop writes the payload at the offset and nothing else |
| `RequestEncoding.EncodeToSlot` | tybok/protocol.py:116-142 | the slot gets the payload and no other byte changes; a payload too large for the slot falls back inline; what is returned decodes to the tensors |
| `RequestEncoding.EncodeInline` | tybok/protocol.py:144-169 | the buffer is prefix, header and payload, and decodes to the tensors; the error cases fail |
| `Snapshot.MatrixPosition` | tybok/policies/fastwam/kernels/phase_check.py:113 | element (i, j) of a matrix view lies i first and j second strides from its offset |
| `Snapshot.Transposes` | tybok/policies/fastwam/kernels/phase_check.py:113 | swapping shape and strides transposes |
| `Snapshot.IsomorphicExec` | tybok/policies/fastwam/kernels/phase_check.py:94-115 | no phase can tell tensors from a copy with the same geometry, bytes and sharing: contents stay equal after any writes |
| `Snapshot.GroupByStorage` | tybok/policies/fastwam/kernels/phase_check.py:103-105 | the grouping loop puts every name into the group of its storage |
| `Snapshot.TakeSnapshot` | tybok/policies/fastwam/kernels/phase_check.py:94-115 | the snapshot is on fresh storages and isomorphic to the original, which is not written |
| `Snapshot.CloneEach` | tybok/policies/fastwam/kernels/phase_check.py:98-101 | cloning tensor by tensor, contiguously: the same elements under the same names, no two sharing a byte |
| `Snapshot.PerTensorCloneFaithfulExactlyWhen` | tybok/policies/fastwam/kernels/phase_check.py:98-101 | such clones, of whatever strides, reproduce every phase if and only if no two elements of the tensors, of one name or of two, share a byte |
| `Snapshot.ExpandedShares` | tybok/policies/fastwam/kernels/phase_check.py:98-101 | for instance one expanded tensor (stride 0) is enough: its elements share their byte |
| `PhaseCheck.Run` | tybok/policies/fastwam/kernels/phase_check.py:79-83 | running a phase in place computes its execution on the memory |
| `PhaseCheck.Recorder.Enter` | tybok/policies/fastwam/kernels/phase_check.py:148-156 | a wanted call leaves a pending case with an isomorphic snapshot of the entry |
| `PhaseCheck.Recorder.Exit` | tybok/policies/fastwam/kernels/phase_check.py:158-164 | the pending case is closed with exactly the written tensors, each with its own elements, and kept, unless it is for another phase |
| `PhaseCheck.Recorder.Dispatch` | tybok/policies/fastwam/kernels/phase_check.py:148-164 | the first per_phase calls of a phase are recorded one by one, each with storages of its own and replaying to what the phase did; later calls leave the cases alone |
| `PhaseCheck.Replay` | tybok/policies/fastwam/kernels/phase_check.py:70-83 | replaying gives exactly the written tensors with what the phase leaves in them from the recorded entry, and leaves the case as it was |
| `PhaseCheck.OutputsEqualExactlyWhen` | tybok/policies/fastwam/kernels/phase_check.py:226-234 | two outcomes are recorded alike if and only if every element of every written tensor is the same |
| `PhaseCheck.Check` | tybok/policies/fastwam/kernels/phase_check.py:226-234 | an implementation passes if and only if it leaves the recorded bytes in every element of every written tensor; the recorded phase passes |
| `Base64.CharVal` | gateway_cpp/src/hash.cpp:39-46 | the value function inverts the alphabet table |
| `Base64.EncodedPadding` | gateway_cpp/src/hash.cpp:10-37 | four characters for every three bytes begun, filled up with = exactly where bytes are missing |
| `Base64.ShortVectors` | gateway_cpp/src/hash.cpp:23-35 | the test vectors f and fo of section 10 of RFC 4648 |
| `Base64.LongVectors` | gateway_cpp/src/hash.cpp:10-37 | the test vectors foo and foobar |
| `Base64.RoundTrip` | gateway_cpp/src/hash.cpp:10-65 | decoding the encoding gives back every byte string |
| `Base64.NoiseIgnored` | gateway_cpp/src/hash.cpp:53-56 | bytes outside the alphabet change nothing, wherever they are inserted |
| `Base64.DecodeStep` | gateway_cpp/src/hash.cpp:57-62 | one step on the wrapping 32-bit accumulator emits the byte of the bit stream |
| `Base64.B64Encode` | gateway_cpp/src/hash.cpp:10-37 | the loop and its two tails compute the encoding |
| `Base64.B64Decode` | gateway_cpp/src/hash.cpp:48-65 | the loop computes the decoding |
| `MacroPatch.ReadsBackExactlyWhen` | tybok/policies/fastwam/kernels/sweep.py:190-225 | the values read back from a patched body are those given if and only if no number touching the one before it is given a value without a sign; separators and continuations stay |
| `MacroPatch.TouchingNumbersMerge` | tybok/policies/fastwam/kernels/sweep.py:222-225 | for instance 3-4 patched with 3 and 4 reads back as 34 |
| `MacroPatch.Override` | tybok/policies/fastwam/kernels/sweep.py:200-225 | a second patch overrides the first |
| `MacroPatch.PlainExactlyWhen` | tybok/policies/fastwam/kernels/sweep.py:197 | a number is its own str() if and only if it has no zero in front of other digits and is not -0 |
| `MacroPatch.IdentityExactlyWhen` | tybok/policies/fastwam/kernels/sweep.py:200-225 | patching with the current values is literally the identity if and only if every number is spelled that way |
| `MacroPatch.LeadingZerosGo` | tybok/policies/fastwam/kernels/sweep.py:200-225 | for instance 07 becomes 7 |
| `MacroText.ReplaceNumbers` | tybok/policies/fastwam/kernels/sweep.py:222-224 | the right-to-left loop over the matches replaces every number, earlier positions staying valid |
| `MacroText.ReadDefineBody` | tybok/policies/fastwam/kernels/sweep.py:174-183 | the line loop finds the end of the logical line, or that a newline is missing |
| `MacroText.PatchedBody` | tybok/policies/fastwam/kernels/sweep.py:174-183 | the patched body is again one logical line of the same continuations |
| `MacroText.FoundAgain` | tybok/policies/fastwam/kernels/sweep.py:186-187 | changing only what follows the match leaves it the first match, unless a word character comes right behind it |
| `MacroText.PatchMacro` | tybok/policies/fastwam/kernels/sweep.py:200-225 | text outside the body is unchanged; foreign content and a wrong count are refused |
| `MacroText.MacroReadsBack` | tybok/policies/fastwam/kernels/sweep.py:186-225 | after patching, the same define is found (if and only if the first number does not run into the name), its body is the patched one, and its values read back exactly when none merge |
| `Rtc.GetPrefixWeights` | tybok/policies/rtc/modeling_rtc.py:194-243 | all four schedules give exactly total weights, each as the pointwise definition says |
| `Rtc.LineSteps` | tybok/policies/rtc/modeling_rtc.py:217-225 | the linear weights fall in equal steps, from one step below 1 to one step above 0 |
| `Rtc.MiddleWeights` | tybok/policies/rtc/modeling_rtc.py:197-211 | the four schedules between the delay and the horizon |
| `Rtc.OuterWeights` | tybok/policies/rtc/modeling_rtc.py:227-243 | before the delay every weight is 1, behind the horizon 0 |
| `Rtc.SchedulesOrdered` | tybok/policies/rtc/modeling_rtc.py:194-243 | 0 <= ZEROS <= EXP <= LINEAR <= ONES <= 1 at every position, for any expm1 that rises from 0 |
| `Rtc.WeightsFall` | tybok/policies/rtc/modeling_rtc.py:194-243 | the weights of every schedule never rise along the chunk |
| `Rtc.GuidanceIsOdds` | tybok/policies/rtc/modeling_rtc.py:163-171 | inside (0, 1) the guidance weight is min(max, (1-tau)/tau + tau/(1-tau)) |
| `Rtc.GuidanceBounds` | tybok/policies/rtc/modeling_rtc.py:163-171 | it is symmetric in tau and 1 - tau and lies between min(2, max) and max |
| `Rtc.GuidanceBoundedExactlyWhen` | tybok/policies/rtc/modeling_rtc.py:163-171 | on [0, 1] the lower bound holds if and only if tau < 1: at 1, nan_to_num makes the weight 0 |
| `ActionQueue.Queue.Get` | tybok/policies/rtc/action_queue.py:46-54 | get hands out the oldest pending action, None exactly when there is none |
| `ActionQueue.Queue.Merge` | tybok/policies/rtc/action_queue.py:104-126 | for chunks of any lengths: with RTC the new chunk less its clamped delay replaces what is pending, without it the chunk is appended |
| `ActionQueue.Queue.Replace` | tybok/policies/rtc/action_queue.py:128-142 | both sides lose the delay clamped to the shorter chunk |
| `ActionQueue.ReplacedIs` | tybok/policies/rtc/action_queue.py:134-136 | that is: nothing at no delay or a negative one, delay actions within the chunks, and the length of the shorter one beyond |
| `ActionQueue.Queue.LeftOvers` | tybok/policies/rtc/action_queue.py:82-102 | both left-overs are what is pending on their side, None for both or for neither |
| `ActionQueue.Queue.Clear` | tybok/policies/rtc/action_queue.py:56-61 | nothing is pending afterwards |
| `ActionQueue.Queue.Append` | tybok/policies/rtc/action_queue.py:144-157 | consumed actions are dropped from both sides and the chunk follows what was pending; originals of actions handed out already go too |
| `ActionQueue.RunQueue` | tybok/policies/rtc/action_queue.py:46-157 | any run of get, clear and merge, with chunks of any lengths, hands out and leaves pending what the index-free lists would |
| `ActionQueue.StepAlignedExactlyWhen` | tybok/policies/rtc/action_queue.py:104-157 | an operation keeps originals and processed actions aligned if and only if it is not a merge of chunks of different lengths |
| `ActionQueue.StepPairs` | tybok/policies/rtc/action_queue.py:46-157 | with chunks of one length the queue is a queue of pairs: a first-in first-out list, or its delay-trimmed replacement |
| `ActionQueue.RunAligned` | tybok/policies/rtc/action_queue.py:46-157 | and stays aligned over any run |
| `ActionQueue.GetsInOrder` | tybok/policies/rtc/action_queue.py:46-54 | n gets in a row hand out the first n pending actions in order |
| `NoisePrefetch.SameNoiseExactlyWhen` | tybok/policies/smolvla/engine.py:495-546 | the k-th implicit request uses the k-th generator draw if and only if no implicit request falls back to the eager path once noise has been prefetched |
| `NoisePrefetch.FallbackSkips` | tybok/policies/smolvla/engine.py:376-382 | an eager fallback while noise is staged takes a later draw, so the sequence differs from the eager one |
| `NoisePrefetch.FallbackAfterGraph` | tybok/policies/smolvla/engine.py:376-382 | for instance a graph request and then a fallback use draws 0 and 2 |
| `NoisePrefetch.Engine.Infer` | tybok/policies/smolvla/engine.py:474-549 | the buffers move as the pure step says, and the noise used so far is what the run of requests uses |
| `NoisePrefetch.Engine.SelectAction` | tybok/policies/smolvla/engine.py:368-389 | a chunk is inferred only when the queue is empty, and actions leave in chunk order |
| `NoisePrefetch.Engine.SelectMany` | tybok/policies/smolvla/engine.py:368-389 | the k-th action is action k mod n of inference k div n |
| `ResizeSizes.ScaledFits` | gateway_cpp/src/image.cpp:99-106 | however the two divisions are rounded (relative error 2^-52), a resized side never exceeds its target, and fills it if and only if the rounded quotient reaches it |
| `ResizeSizes.BothSides` | gateway_cpp/src/image.cpp:99-106 | both sides fit the target, and one of them misses it by one pixel at most |
| `ResizeSizes.DoubleRelative` | gateway_cpp/src/image.cpp:99-101 | rounding to the nearest double keeps that error on all quotients of sizes |
| `ResizeSizes.FiftyEight` | gateway_cpp/src/image.cpp:99-106 | in double a 58 x 58 image is resized to 223 x 223 for a target of 224 x 224: neither side fills it |
| `Resize.TapInside` | gateway_cpp/src/image.cpp:115-126 | both source indices are in bounds, and the second weight is in [0, 1) |
| `Resize.SourceMirrors` | gateway_cpp/src/image.cpp:116-117 | source coordinates mirror about the middle of the axis, which fixes the half-pixel offsets |
| `Resize.SourceSteps` | gateway_cpp/src/image.cpp:114-116 | and move by the ratio of the sizes from one output to the next |
| `Resize.HalfSize` | gateway_cpp/src/image.cpp:115-126 | at half the size every output is the mean of its two pixels |
| `Resize.IndexDistinct` | gateway_cpp/src/image.cpp:169 | different cells have different places in the planar buffer |
| `Resize.PixelConvex` | gateway_cpp/src/image.cpp:164-168 | a pixel lies between the least and greatest of its four sources |
| `Resize.CellRange` | gateway_cpp/src/image.cpp:143-172 | the padding is zero and every cell is in [0, 1] |
| `Resize.EqualSizesIdentity` | gateway_cpp/src/image.cpp:95-174 | at equal sizes, with the sizes divided in double, the target is the source divided by 255 |
| `Resize.FillTarget` | gateway_cpp/src/image.cpp:148-172 | the nested loops write every cell of the resized rectangle and never the padding |
| `Resize.ResizePad` | gateway_cpp/src/image.cpp:95-174 | for any accurate rounding of the sizes the call succeeds exactly when nothing is empty, the resized image lies in the target and misses it by one pixel at most on one side, and every cell holds its pixel or padding |

## Left out

- Quantize.QuantizeAct: the rounding of the two divisions and of the constant 1e-12 is any function with the accuracy Rounding states; that the GPU's division has it is assumed. NaN and infinite elements are not modelled.
- Fp8.CastsAgreeExceptAt464: finite floats only; NaN and infinite inputs are not modelled.
- Gemm.FpGemm: accumulation order and fp32 rounding are not modelled; the output rounding is a parameter, and the output and the residual are two-dimensional rather than flat.
- Packing.PackedFaithfulExactlyWhen: the token quantisation, row product and cast of a layer are parameters. Parts of which the first has a bias and a later one has none, for which the code raises an error, are not modelled.
- PackTree.PackFp8: the fp8 recursion; the bf16 one (pack_attention_qkv) copies rows in the same way and has no skip test.
- PackTree.StackedContext: the product over the stacked rows; the reuse of the output buffers and the repacking CUDA kernel are not modelled.
- JsonRoundTrip.ParseDump: numbers are integers within 9e15; any other number is kept as its spelling, and strtod and to_chars on general doubles are not modelled.
- JsonParser.Parser.ParseNumber: strtod on the characters the code collects, with the prefix it takes; its value only where the prefix spells an integer within 9e15.
- JsonParser.Parser.ParseEscape: as in the code, the halves of a surrogate pair are encoded separately; a text with surrogate pairs is not read as other JSON readers read it.
- Splice.ResponseRelaysAction: the client is taken to read JSON as json.cpp does; ResponseForAnyClient is about other readers.
- CppLink.MatchesExactlyWhen: the replies wait in an unbounded buffer; failed and partial sends, after which every call fails, are not modelled.
- Pipeline.EveryRunOrdered: whether threads are scheduled, and spurious wake-ups, are not modelled.
- DecodePool.EachJobOnce: a job's result is a function of its number; exceptions in jobs are not modelled.
- WorkerLinkSafety.EveryRunMatches: no task is cancelled during a roundtrip, and a response that cannot be parsed (a ValueError, which leaves the socket open) is not modelled. The GPU transport and describe requests are left out.
- WorkerLinkCapacity.RingSafeExactlyWhen: the order in which the Python gateway answers its messages is not claimed, since decodes race before the lock.
- Protocol.InlineRoundTrip: json.dumps and json.loads are parameters, of which it is required that the header survives them. The rtc block travels in the header, but decode_rtc, the conversion of images to uint8 and the GPU transport are left out.
- Protocol.CppRoundTrip: the total length is below 2^32, as the code assumes without testing it.
- Framing.Socket.ReadAllFrames: receives return any non-empty part of what is left; a connection reset inside a frame is the end of the stream.
- WebSocket.Reassembles: the reserved bits and a missing mask are ignored, as the code does; a receive returns what was asked for or the end of the stream.
- Snapshot.TakeSnapshot: tensors are grouped by the identity of their storage; empty storages, which may share a null data pointer in the code, are not modelled.
- PhaseCheck.Check: bytes, not the differences in ulp and magnitude that the report shows; streams and synchronisation are not modelled.
- MacroText.PatchMacro: ASCII digits, white space and word characters; reading and writing the file is not modelled.
- Rtc.SchedulesOrdered: expm1 is any function that rises from 0; weights are exact numbers.
- Rtc.GuidanceIsOdds: exact quotients, with 0/0 and x/0 as floats have them.
- NoisePrefetch.SameNoiseExactlyWhen: the k-th draw is a number; the CUDA streams and events that order the copies are not modelled.
- Resize.ResizePad: the sizes are divided with any accurate rounding, but source coordinates, weights and pixels are exact; the float rounding that makes them equal torch bit for bit is not modelled. Sizes are 31-bit, as int is.
- The networks, attention kernels, graph capture and compilation, which are numerics or library code.
- Sockets, the HTTP handshake and its SHA-1, image decoding, logging and timing.
- Template axes, comment stripping, candidate search and compilation in sweep.py, the phase tables and GEMM configurations: finite data.
- The command line, configuration, camera aliases, tokenisers, normalisers and latency tracker: easy members only.
