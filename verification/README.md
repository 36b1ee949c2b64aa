# Verified models of the path tracer's algorithms

The repository is a Direct3D 12 path tracer with an editor, a local MCP server, scene importers and a
benchmark harness. These Dafny modules model the self-contained algorithms in it and prove what they
are for. `dafny verify dfyconfig.toml` checks all of them.

| modules | what they model |
|---|---|
| GpuTrace, NrdRecording, NrdSafety, NrdSlices, NrdLaunches, NrdBackend, NrdLookups, NrdRuns | the bridge that replays denoiser dispatches: resource states and barriers, the descriptor cache, the constant ring. GpuTrace is a machine that runs recorded commands and notices a broken synchronisation rule; NrdRecording says what is recorded; NrdLaunches what each dispatch finds bound; NrdBackend is the class that records it, NrdLookups says what it looks up, and NrdRuns follows its evaluations one after the other |
| Sums, AliasTable, LightSelection | Walker's alias table for light selection, its quantisation and the density it realises; the shader that selects with it, and what area and radiance have to do with it |
| ChunkedCoding, ChunkLines, HttpBody, HttpArrival | the incremental reader of HTTP bodies against a pure decoder of the chunked coding, what the decoder answers to each size line, and how the size limit depends on the receives |
| BodyBudget | the compare-and-swap budget for buffered bodies, over all interleavings |
| JsonEscape, JsonNumber, KeyOrder, CanonicalJson, JsonStrings, JsonReader | canonical JSON text, why it is injective up to member order, and that the parser of the repository reads it back |
| ApprovalGrants | the one-time approval broker as a class and over all interleavings |
| Subscriptions | resource generations and the streams that report them |
| HeaderValues | header values wrapped in base64 |
| PbrtLexer, PbrtLayouts, PbrtStatements, PbrtDirectives, PbrtBlocks, PbrtParsing, PbrtIncludes, PbrtInstancing, PbrtPlacement | PBRT import: the lexer, includes, the graphics-state stacks, object definitions, their unfolding and where it places points |
| SecureHash, SecureConstants, SecureBits, SecureRounds, StreamingSha256 | SHA-256 and why it is that of FIPS 180-4: its constants, its functions bit by bit, its rounds; and the block-buffered class that computes it |
| Dispatcher, DispatcherSteps | the approval queue as a class, one call at a time and over all interleavings |
| ArtifactRegistry | the register of captured images and the readiness test of the temporal analysis |
| SparseAccessor, SparseBytes | reading a sparse or plain glTF accessor, to the byte |
| ImageCompare, ImageMeasures | the image comparison metrics and what they measure |
| RadianceRows, SequenceVariance | the mixed run-length and raw rows of a Radiance image, and the running variance of a sequence of them |
| Options, Bytes, Multiples | helpers |

Concurrent protocols are state machines: a thread is reduced to its atomic steps, split where the code
releases its lock, and results hold for every list of events. Time, random bytes, the network, files
and the answers of foreign libraries are parameters. `float` and `double` are reals.

## Findings

- The caller of the denoiser bridge hands over external textures whose writes it has not synchronised.
  That is safe exactly when no dispatch binds a texture both for reading and for writing and each of
  these textures is read before it is written (NrdSafety.EvaluationIsSafe and EvaluationIsSafeOnlyIf);
  evaluations of both kinds exist (NrdRuns.BothDisciplinesHappen).
- An evaluation that fails at a dispatch has recorded the ones before it and does not give the external
  textures back: those last read stay in the shader-read state (NrdRuns.FailureLeavesReads, with such an
  evaluation in FailureHappens).
- The 64 KiB limit on chunk lines and trailers is looked at only between receives. A line is refused
  exactly when a receive ends more than 64 KiB into it and before its end (HttpBody.FindReceiving). Lines
  that end within 65537 bytes are never refused (ChunkedCoding.FitsExactly), those that take more than
  65536 + 4096 always (HttpArrival.LongLinesAreRejected), and each in between, wherever it stands, is
  read or refused with the sizes of the receives (HttpArrival.ArrivalDecides and HeaderDecides, with a
  concrete body in BothHappen). Nothing else depends on them (HttpArrival.ArrivalDecidesLittle).
- A plain glTF accessor passes the bounds check and is read past the end of its buffer exactly when its
  last element ends outside, which takes a stride smaller than the element
  (SparseAccessor.ReadsOutsideExactly, with an accessor in OverlapReadsOutside).
- An empty header value cannot be sent wrapped in base64: its wrapping is taken for plain text
  (HeaderValues.WrappedDecodes). The spare bits of a padded payload are not checked: what is accepted
  is exactly the encodings of RFC 4648 up to these bits (HeaderValues.AcceptedExactly, StrictExactly).
- A raw Radiance row that begins with the row marker is taken for a compressed one at every width
  (RadianceRows.MarkerLikeRawRow). It survives only if it is at the same time a compressed encoding of
  its own pixels (RadianceRows.RawRowExactly), for which its fifth byte must be 1 to 129 and its sixth 2.

## Model

| member | source | states |
|---|---|---|
| GpuTrace.IllegalDispatchIsUnsafe | Source/NrdBackend.cpp:703-780 | a dispatch that reads a texture not in the shader-read state or with an unsynchronised write, or writes one with an unsynchronised write or not held for writing, breaks the machine whatever barriers follow |
| GpuTrace.UnsafeStaysUnsafe | Source/NrdBackend.cpp:703-791 | no later command repairs a command list that broke a synchronisation rule |
| NrdSafety.TransitionsStayInSync | Source/NrdBackend.cpp:514-563 | the transitions recorded for a resource list carry the real state of every texture from one tracked state to the next; every before-state is the actual one |
| NrdSafety.ReadingMakesVisible | Source/NrdBackend.cpp:634-648 | a texture that was held for writing and is bound for reading has no unsynchronised write left after the transitions |
| NrdSafety.EvaluationIsSafe | Source/NrdBackend.cpp:603-791 | barrier omission is safe: if no dispatch binds a texture both ways and what the caller left unsynchronised is read before it is written, no access meets an unsynchronised write or a wrong state, all external textures end in the UAV state, the tracked states are the real ones and no write of the evaluation stays uncovered |
| NrdSafety.EvaluationIsSafeOnlyIf | Source/NrdBackend.cpp:603-791 | for every other dispatch list the recording breaks a rule, so the condition is exact |
| NrdSafety.OmissionIsInvisible | Source/NrdBackend.cpp:738-780 | compared with a barrier after every written texture, the recording with omissions is exactly as safe and leaves the same states and the same pending writes |
| NrdSafety.EveryRunIsSafe | Source/NrdBackend.cpp:369-795 | over any sequence of evaluations the tracked pool states stay the real ones and every evaluation is safe |
| NrdRuns.EvaluationsAreRun | Source/NrdBackend.cpp:369-795 | evaluations that succeed one after the other, each starting from the tables the contract of Evaluate says the one before it left, are such a sequence |
| NrdRuns.EvaluationsStaySafe | Source/NrdBackend.cpp:369-795 | so over any number of successful Evaluate calls no recorded command list breaks a rule, provided each caller keeps the discipline and nobody else touches the pools |
| NrdRuns.PartStaysInSync | Source/NrdBackend.cpp:603-781 | the dispatches recorded so far leave every texture in its tracked state, whether or not a rule was broken |
| NrdRuns.FailureLeavesReads | Source/NrdBackend.cpp:605-696 | when an evaluation fails at a dispatch, an external texture stays in the shader-read state exactly when the dispatches recorded before it used it last for reading |
| NrdRuns.FailureHappens | Source/NrdBackend.cpp:605-609 | there is such a failure: a complete description, a first dispatch that reads the motion vectors and a second without a pipeline leave them in the shader-read state |
| NrdRuns.BothDisciplinesHappen | Source/NrdBackend.cpp:738-780 | there are a complete description and a machine its caller may hand over such that an evaluation whose list writes the unsynchronised texture at once is recorded unsafely, and one that reads it first is safe |
| NrdSlices.OffsetsDiffer | Source/NrdBackend.cpp:630-702 | two bindings of one dispatch never share a descriptor slot |
| NrdSlices.DescriptorStep | Source/NrdBackend.cpp:650-702 | one resource step, whether it skips or writes the descriptor, extends the part of the set that holds what writing everything would give |
| NrdSlices.CachesStillAgree | Source/NrdBackend.cpp:617-703 | writing one set keeps the agreement of every cache entry of every frame with the heap |
| NrdSlices.SetsAreDisjoint | Source/NrdBackend.cpp:492-493 | the descriptor sets of different dispatches or frame contexts never overlap |
| NrdSlices.SetInHeap | Source/NrdBackend.cpp:904-916 | every set lies inside the heap that was created |
| NrdSlices.SlotTaken | Source/NrdBackend.cpp:710-728 | a dispatch that uploads fills the next constant slot and leaves the constants of earlier dispatches in place |
| NrdSlices.SlotShared | Source/NrdBackend.cpp:710-728 | a dispatch that takes no slot sees the constants of the one before it |
| NrdSlices.ZeroFillIsAtStart | Source/NrdBackend.cpp:723-728 | the zero-fill without a bounds check is reached only before any slot is taken, with the cursor at the start of the slice |
| NrdSlices.SlotFitsSlice | Source/NrdBackend.cpp:993-999 | each dispatch takes at most one slot, so a dispatch within the set count has room in its slice, and the slice lies in the buffer |
| NrdBackend.AlignUp | Source/NrdBackend.cpp:22-25 | the least multiple of 256 that is not below the size |
| NrdBackend.NrdBackend.Initialize | Source/NrdBackend.cpp:809-1047 | either the bridge is ready with heap, slices and empty caches of the right sizes, or it is not ready |
| NrdBackend.NrdBackend.ReleaseBridgeResources | Source/NrdBackend.cpp:1049-1079 | pipelines, pools, tracked states and caches are emptied and every size and cursor goes back to its initial value |
| NrdBackend.NrdBackend.Shutdown | Source/NrdBackend.cpp:797-807 | the same, and the instance is gone; the ready flag and the failure reason are kept, but without an instance nothing is evaluated |
| NrdBackend.NrdBackend.ResolveResource | Source/NrdBackend.cpp:532-563 | the texture a reference stands for, or null; one transition when the state differs, and the new tracked state |
| NrdBackend.NrdBackend.BindDescriptor | Source/NrdBackend.cpp:657-701 | writes the view unless the cache says it is there; the slot holds the view in both cases |
| NrdBackend.NrdBackend.BindResources | Source/NrdBackend.cpp:617-703 | all descriptors of one dispatch, its transitions in order, and each written texture once |
| NrdBackend.NrdBackend.PlaceConstants | Source/NrdBackend.cpp:710-728 | fails exactly when an upload would pass the end of the slice; otherwise the constants of every dispatch so far are in their slots |
| NrdBackend.NrdBackend.NextTransitionsToSrv | Source/NrdBackend.cpp:743-766 | true exactly when the next dispatch uses the texture and uses it only as a shader resource |
| NrdBackend.NrdBackend.CollectUavBarriers | Source/NrdBackend.cpp:768-775 | a UAV barrier for each written texture that the next dispatch does not read |
| NrdBackend.NrdBackend.BindDispatch | Source/NrdBackend.cpp:605-703 | fails exactly for a missing pipeline, set, resource or too many descriptors; otherwise the caches agree with the heap and the whole set is written |
| NrdBackend.NrdBackend.RecordAll | Source/NrdBackend.cpp:603-781 | the dispatch loop records exactly the specified trace, or fails exactly when some dispatch cannot be recorded, with the trace of the dispatches before it; never for want of constant space |
| NrdBackend.NrdBackend.ReturnExternals | Source/NrdBackend.cpp:783-791 | the final round of transitions to the UAV state |
| NrdBackend.NrdBackend.SetFailure | Source/NrdBackend.cpp:214-219 | clears the ready flag and keeps the reason |
| NrdBackend.NrdBackend.Evaluate | Source/NrdBackend.cpp:369-795 | succeeds exactly when everything given can be recorded; any failure past the entry guard clears the ready flag, is never the constant-ring failure, and leaves the command list alone or, at a dispatch, with exactly the trace of the dispatches before the first that cannot be recorded; on success the command list gets the specified trace, every slot of every dispatch holds the view that unconditional writing would put there; each dispatch the recorded commands launch has its own pipeline bound, finds the views of its textures in the tables bound and its constants at the address bound; and the constants of other frames are unchanged; the cache invariant holds before and after |
| NrdBackend.NrdBackend.GrowCache | Source/NrdBackend.cpp:499-508 | new cache entries claim nothing |
| NrdLaunches.EvaluationLaunches | Source/NrdBackend.cpp:603-791 | the recorded commands launch exactly the dispatches, in order; dispatch i runs with its own pipeline, its constant address and its two tables bound last before it |
| NrdLaunches.WrittenIsFound | Source/NrdBackend.cpp:630-702 | in a set that is written, the view of resource j stands in the table of its kind, as many places in as there are resources of this kind before it |
| NrdLaunches.PlacedIsFound | Source/NrdBackend.cpp:710-728 | at the slot of dispatch i stand the constants of the last dispatch up to it that brought some, cut to the slot and followed by zeros, or only zeros |
| NrdLaunches.EvaluationFinds | Source/NrdBackend.cpp:603-735 | from the recorded commands, the heap and the constant buffer alone: every launch has its pipeline, finds the view of each of its resources and its constants, and accesses exactly the textures so bound |
| NrdLookups.ExternalsAre | Source/NrdBackend.cpp:403-427 | each of the nine textures passed in is looked up under its own kind, the two confidences only when both are there |
| NrdLookups.PoolsAre | Source/NrdBackend.cpp:532-552 | each pool texture is looked up under its own pool and index |
| NrdLookups.PoolsStay | Source/NrdBackend.cpp:403-440 | an evaluation finds the pools in the states they were left in and takes what is passed in to be ready for writing |
| NrdLookups.FramesTakeTurns | Source/NrdBackend.cpp:492-494 | frame contexts take turns, so each of them has its own slices |
| NrdLookups.RecordableExactly | Source/NrdBackend.cpp:605-696 | a dispatch is recorded exactly when its pipeline, a set and all its resources are there and there are no more of either kind than a table holds |
| AliasTable.PourKeepsBalance | Source/PathTracingScene.cpp:199-209 | one turn of the two-worklist loop conserves the mass still to be placed and keeps every finished bucket exact |
| AliasTable.DryMeansDone | Source/PathTracingScene.cpp:199-209 | when a worklist runs dry the other holds only full buckets, so every light has exactly its target |
| AliasTable.Redistribute | Source/PathTracingScene.cpp:185-209 | the loop terminates and the table it leaves gives every light exactly its scaled target |
| AliasTable.Unpacks | Source/PathTracingScene.cpp:222-223 | threshold and alias come back out of the packed word |
| AliasTable.Quantise | Source/PathTracingScene.cpp:211-224 | thresholds within half a step, at least one for a light with weight, zero only without |
| AliasTable.Realise | Source/PathTracingScene.cpp:229-236 | the accumulation loop computes the chance with which the quantised table selects each light |
| AliasTable.BuildLightAliasTable | Source/PathTracingScene.cpp:157-241 | refused exactly above 65535 lights, emptied exactly without weight; otherwise the stored density is exactly the chance of selection and the packed table is the quantisation of an exact one |
| AliasTable.DensitiesSumToOne | Source/PathTracingScene.cpp:226-240 | the stored densities sum to one |
| AliasTable.PositiveExactlyWithWeight | Source/PathTracingScene.cpp:215-220 | a stored density is positive exactly when the weight is |
| AliasTable.CloseToTargets | Source/PathTracingScene.cpp:211-240 | the total absolute difference from the target distribution is at most 2/65535 |
| LightSelection.LuminanceIsLinear | Source/PathTracingScene.cpp:57-60 | luminance is additive and homogeneous in the radiance |
| LightSelection.LuminanceOfColours | Source/PathTracingScene.cpp:57-60 | it is 0.2126, 0.7152 and 0.0722 for unit red, green and blue |
| LightSelection.TargetsInProportion | Source/PathTracingScene.cpp:165-197 | targets are in proportion to area times luminance |
| LightSelection.TargetsByArea | Source/PathTracingScene.cpp:165-197 | lights of equal radiance are selected in the ratio of their areas |
| LightSelection.TargetsByLuminance | Source/PathTracingScene.cpp:165-197 | lights of equal area are selected in the ratio of their luminances |
| LightSelection.TargetsSumToOne | Source/PathTracingScene.cpp:165-197 | the targets are shares of the whole |
| LightSelection.SelectableByFlux | Source/PathTracingScene.cpp:211-240 | a light can be selected exactly when its area times its luminance is positive |
| LightSelection.SomethingToSelect | Source/PathTracingScene.cpp:174-178 | the table is emptied exactly when no light has positive area times luminance |
| LightSelection.SelectsByCoin | Shaders/PathTracingABI.hlsli:1554-1563 | a sample in bucket b selects in the shader the light b when its coin is below the threshold, and else the alias |
| LightSelection.SampleOfCoin | Shaders/PathTracingABI.hlsli:1554-1563 | every bucket and coin have a sample of [0, 1), so the shares of the samples are those the density adds up |
| LightSelection.DensityIsShareOfSamples | Source/PathTracingScene.cpp:226-240 | of evenly spaced samples, 65535 in each bucket, the shader selects a light for exactly the share that its stored density says |
| ChunkedCoding.FindExtended | Source/McpServer.cpp:1635-1645 | more bytes neither move a line end that was found nor make one before what was there |
| ChunkedCoding.LimitOnlyRejects | Source/McpServer.cpp:1638-1642 | looking at the size limit more often changes nothing but rejects |
| ChunkedCoding.EarlyLooksAreIdle | Source/McpServer.cpp:1638-1642 | looks at a buffer within the limit make no difference |
| ChunkedCoding.FitsExactly | Source/McpServer.cpp:1638-1642 | a line of at most 65537 bytes with its end is never rejected, any other one is when the limit is looked at after every byte |
| ChunkedCoding.ShownIsRead | Source/McpServer.cpp:1655-1671 | a size printed by dividing by sixteen, in digits of either case after any number of zeros, is read as that size |
| ChunkedCoding.ReadIsShown | Source/McpServer.cpp:1655-1671 | every hexadecimal text is such a print of the number it is read as |
| ChunkLines.AnnouncedIsParsed | Source/McpServer.cpp:1651-1671 | a line with a number to base sixteen between white space, before any semicolon, is read as that number, and refused above 64 bits |
| ChunkLines.ParsedIsAnnounced | Source/McpServer.cpp:1651-1671 | and no other line is read as a number |
| ChunkLines.LineLimit | Source/McpServer.cpp:1638-1642 | looked at after every byte, a line is refused exactly above 65535 bytes |
| ChunkLines.ChunkAnswers | Source/McpServer.cpp:1690-1730 | a chunk that would bring the body above 16777216 bytes, is not all there or is not followed by its line end is refused for that; any other is taken off |
| ChunkLines.OtherAnswers | Source/McpServer.cpp:1629-1689 | chunk 65537 and a line without a size are refused; the chunk of size zero ends the body when an empty line follows, at once or after trailer fields |
| ChunkedCoding.DecodesChunk | Source/McpServer.cpp:1627-1737 | one chunk with its size printed to base sixteen, in front of anything, is decoded and taken off |
| ChunkedCoding.ChunksDecode | Source/McpServer.cpp:1627-1737 | any number of encoded chunks in front of anything are decoded and taken off |
| ChunkedCoding.DecodesEncoding | Source/McpServer.cpp:1627-1737 | every valid encoding (RFC 9112 section 7.1) decodes to the concatenation of its chunks, whatever follows it and however its bytes arrive |
| HttpBody.FoundInStream | Source/McpServer.cpp:1635-1645 | a search in the compacted buffer finds what a search of the whole stream finds |
| HttpBody.Receive | Source/McpServer.cpp:1605-1617 | a receive keeps the stream, and the buffer never grows beyond a constant |
| HttpBody.LimitDecides | Source/McpServer.cpp:1638-1642 | the loop finds the buffer above the limit exactly when, at some moment between receives, more than 64 KiB of the line were there without its end |
| HttpBody.FindReceiving | Source/McpServer.cpp:1635-1645 | the end of the line as the whole stream has it, too large exactly when some receive boundary lies more than 64 KiB into the line and before its end, and not found exactly when the stream lacks it |
| HttpBody.EnsureTwo | Source/McpServer.cpp:1618-1625 | two bytes are there exactly when the stream has them |
| HttpBody.Compact | Source/McpServer.cpp:1713-1722 | dropping consumed bytes keeps the stream and bounds the cursor |
| HttpBody.ReadData | Source/McpServer.cpp:1697-1723 | moves exactly the chunk data of the stream into the body through the sliding buffer |
| HttpBody.ReadTrailer | Source/McpServer.cpp:1672-1689 | the end of the body as the pure decoder has it for these receive boundaries |
| HttpBody.ReadChunk | Source/McpServer.cpp:1635-1736 | one round of the loop is one step of the pure decoder for these receive boundaries |
| HttpBody.ReadChunked | Source/McpServer.cpp:1600-1738 | for any split of the stream into receives the result equals that of the pure decoder given where the receives end; every valid encoding, with sizes printed to base sixteen, gives exactly its chunks, and a body fits its reservation |
| HttpBody.ReadFixed | Source/McpServer.cpp:1747-1764 | exactly the declared number of bytes, or a failed read when the stream is shorter |
| HttpArrival.ArrivalDecidesLittle | Source/McpServer.cpp:1600-1738 | however the same bytes arrive the result is the same unless it is the refusal of an over-long line |
| HttpArrival.TrickleIsStrictest | Source/McpServer.cpp:1635-1645 | byte by byte the limit is looked at everywhere |
| HttpArrival.LongLinesAreRejected | Source/McpServer.cpp:1635-1645 | a line that ends more than 65536 + 4096 bytes from its start, or one over the limit that never ends, is rejected however the bytes arrive |
| HttpArrival.ArrivalDecides | Source/McpServer.cpp:1635-1645 | every line in between, wherever it stands in the stream, is read with some receives and rejected byte by byte, as long as what came with the header is not above the limit in it |
| HttpArrival.HeaderDecides | Source/McpServer.cpp:1635-1645 | otherwise what came with the header decides: the line is rejected, whatever the receives, exactly when its end did not come with the header |
| HttpArrival.TwoOutcomes | Source/McpServer.cpp:1600-1738 | so a body of any chunks whose last line is in that window is accepted or refused with the sizes of the receives |
| HttpArrival.BothHappen | Source/McpServer.cpp:1600-1738 | the line of a zero, a semicolon and 65535 further bytes is such a line: its body is read in sixteen receives of 4096 bytes and one of five, and refused byte by byte |
| BodyBudget.NextConserves | Source/McpServer.cpp:2072-2112 | each atomic step keeps the counter equal to the reservations |
| BodyBudget.BudgetIsConserved | Source/McpServer.cpp:2072-2112 | under every interleaving the counter is the sum of the live reservations, never above the budget, never wrapped, and zero once nobody holds any |
| BodyBudget.RejectionIsHonest | Source/McpServer.cpp:2085-2101 | a thread is turned away only if at some moment of its attempt the request did not fit |
| BodyBudget.FittingIsGranted | Source/McpServer.cpp:2072-2112 | a request that fits is granted to a thread that is not disturbed, raises the counter by its size and lowers it again when it is done |
| JsonEscape.CodeReadsBack | Source/SimpleJson.cpp:515-542 | no character escape starts like another |
| JsonEscape.QuotedReadsBack | Source/SimpleJson.cpp:515-542 | a quoted string ends at the first bare quote and different texts are quoted differently |
| JsonStrings.CodeIsRead | Source/SimpleJson.cpp:267-399 | the string reader of the parser, with the escapes of section 7 of RFC 8259, reads the code of a character as that character |
| JsonStrings.EscapedIsRead | Source/SimpleJson.cpp:515-542 | reading an escaped UTF-8 text up to its quote gives that text |
| JsonStrings.OthersAreRefused | Source/SimpleJson.cpp:267-399 | what is escaped from any other text is not read at all |
| JsonNumber.NumberParts | Source/McpServer.cpp:135-189 | trimming the printed number leaves its mantissa without trailing zeros and its exponent without leading ones |
| JsonNumber.NumberReadsBack | Source/McpServer.cpp:123-190 | only the two zeros share a number text |
| KeyOrder.SortSorts | Source/McpServer.cpp:207-214 | sorting orders keys byte by byte |
| KeyOrder.SortedIsUnique | Source/McpServer.cpp:207-214 | a set of keys has one sorted list |
| KeyOrder.LessExactly | Source/McpServer.cpp:207-214 | one key is before another exactly when it ends or has the smaller byte where they first differ |
| CanonicalJson.SameHasSameText | Source/McpServer.cpp:113-229 | values equal up to member order have the same text |
| CanonicalJson.ReadsBack | Source/McpServer.cpp:113-229 | a value text ends itself whatever follows, and only values equal up to member order share it |
| CanonicalJson.CanonicalExactly | Source/McpServer.cpp:113-229 | canonical texts agree exactly on values equal up to the order of object members |
| CanonicalJson.ValidIsPrinted | Source/McpServer.cpp:113-229 | a value without a number that is not finite has a canonical text |
| CanonicalJson.NonFiniteIsRefused | Source/McpServer.cpp:126-129 | one with such a number anywhere has none |
| JsonReader.NumberIsRead | Source/SimpleJson.cpp:210-265 | the number reader of the parser reads a number text as the decimal number its seventeen digits and exponent write |
| JsonReader.TextIsRead | Source/SimpleJson.cpp:100-208 | the parser, at any depth and with anything behind it, reads the canonical text of a value as a value that means the same |
| JsonReader.CanonicalIsRead | Source/SimpleJson.cpp:85-98 | so canonical text alone is read back: literals, amounts, strings, items in order, and members by their keys in byte order |
| ApprovalGrants.ApprovalGrantBroker.Issue | Source/McpServer.cpp:794-860 | rejects a malformed binding, drops expired records, rejects at 64, otherwise adds a record without overwriting one |
| ApprovalGrants.ApprovalGrantBroker.RemoveExpired | Source/McpServer.cpp:838-848 | keeps exactly the records that have not expired |
| ApprovalGrants.ApprovalGrantBroker.Take | Source/McpServer.cpp:868-893 | finds and removes the record in one locked step |
| ApprovalGrants.ApprovalGrantBroker.Consume | Source/McpServer.cpp:862-913 | approves exactly when the record taken matches session, tool and argument hash before its expiry; the record is gone either way |
| ApprovalGrants.ApprovalGrantBroker.RevokeAll | Source/McpServer.cpp:915-919 | no record is left |
| ApprovalGrants.BindingsAre | Source/McpServer.cpp:799-805 | a binding is a session and a tool of the server of at most 128 letters, digits and four marks, and a hash of 64 lower-case hexadecimal digits |
| ApprovalGrants.ApprovesExactly | Source/McpServer.cpp:895-912 | a record approves exactly the calls of its session and tool whose arguments have its hash, before it expires |
| ApprovalGrants.IssuedIsTaken | Source/McpServer.cpp:849-893 | a grant issued below the limit lasts thirty seconds and is taken by the next call that presents it |
| ApprovalGrants.OthersTakeNothing | Source/McpServer.cpp:868-893 | a grant of another length or without a record takes nothing, any other takes its record and no more |
| ApprovalGrants.FirstRecordStays | Source/McpServer.cpp:854-860 | issuing a grant again does not change its live record |
| ApprovalGrants.FullIsRefused | Source/McpServer.cpp:849-853 | with 64 live records nothing is issued |
| ApprovalGrants.AtMostSixtyFour | Source/McpServer.cpp:849-853 | at most 64 records are live in every interleaving |
| ApprovalGrants.ApprovedWasIssued | Source/McpServer.cpp:794-913 | an approved call presents a grant issued earlier for this session and tool and for arguments equal up to member order, within thirty seconds and not revoked before it was taken |
| ApprovalGrants.UsesAtMostIssues | Source/McpServer.cpp:854-893 | calls that got a record and records still live are together at most the issues |
| ApprovalGrants.ApprovesOncePerIssue | Source/McpServer.cpp:854-893 | two approvals of one grant need two issues of it |
| Subscriptions.LookCatchesUp | Source/McpServer.cpp:1862-1874 | after a look the notices tell the current generation of every watched resource, each newer than the ones before |
| Subscriptions.EveryRunIsSound | Source/McpServer.cpp:1804-1910 | in every interleaving a stream tells only news and what it tells is what it saw |
| Subscriptions.NothingIsLost | Source/McpServer.cpp:1845-1910 | a stream with nothing left to find or send has told the current generation of every watched resource that changed since it began |
| Subscriptions.SubscribeOpens | Source/McpServer.cpp:1804-1862 | a subscription to different resources opens a stream that has seen each as it is |
| Subscriptions.LookTellsAll | Source/McpServer.cpp:1845-1910 | one look and as many successful sends as it found tell the reader the current generation of everything watched |
| Subscriptions.PublishedCounts | Source/McpServer.cpp:1157-1175 | a publication raises each named resource by the number of times it is named, and no other |
| PbrtInstancing.Importer.ResolveElement | Source/PbrtSceneImporter.cpp:1806-1834 | the recursive walk appends the instances of the element and restores the object stack, or reports a singular transform, an undefined object or a cycle; it terminates on every table |
| PbrtInstancing.Importer.ResolveRootObjects | Source/PbrtSceneImporter.cpp:1836-1848 | all roots in order, the stack empty again, and the limit of 2^24 instances |
| PbrtInstancing.WalkUnfolds | Source/PbrtSceneImporter.cpp:1806-1834 | the j-th instance is the mesh at the end of the j-th path, with the product of the transforms along it |
| PbrtInstancing.EveryPathIsWalked | Source/PbrtSceneImporter.cpp:1827-1834 | no path to a mesh is left out |
| PbrtInstancing.WalkIsInOrder | Source/PbrtSceneImporter.cpp:1832-1832 | paths come in the order of the file, none twice |
| PbrtInstancing.SuccessHasNoFault | Source/PbrtSceneImporter.cpp:1815-1834 | a walk that succeeds met no singular transform, undefined object or cycle |
| PbrtInstancing.FailureHasFault | Source/PbrtSceneImporter.cpp:1815-1834 | a walk that fails has a path to such a fault |
| PbrtInstancing.InstancesArePaths | Source/PbrtSceneImporter.cpp:1806-1848 | on any object table the import succeeds exactly when no path is faulty and there are not too many instances, and then the instances are exactly the root-to-mesh paths, each once, in order |
| PbrtPlacement.ApplyIsLinear | Source/PbrtSceneImporter.cpp:1808-1814 | a transform takes sums and multiples of points to those of their images |
| PbrtPlacement.UnitRows | Source/PbrtSceneImporter.cpp:1808-1814 | and the four unit rows to its rows |
| PbrtPlacement.MulIsBoth | Source/PbrtSceneImporter.cpp:1814-1831 | the product of two transforms is the first followed by the second |
| PbrtPlacement.WorldCarries | Source/PbrtSceneImporter.cpp:1806-1834 | the transform of a path takes a point where the transforms along the path take it one after the other, mesh first |
| PbrtPlacement.InstancesCarry | Source/PbrtSceneImporter.cpp:1806-1848 | so every instance of an import places the points of its mesh there |
| PbrtPlacement.DeterminantIsLinear | Source/PbrtSceneImporter.cpp:1815-1816 | the determinant is linear in the first row |
| PbrtPlacement.DeterminantAlternates | Source/PbrtSceneImporter.cpp:1815-1816 | it changes its sign with every exchange of neighbouring rows, and with its value one for the identity that determines it |
| PbrtPlacement.ScaleIsSingular | Source/PbrtSceneImporter.cpp:1815-1816 | a mesh under a uniform scale is refused exactly when the cube of the scale is below 1e-10 |
| PbrtLexer.Lexer.SkipWhitespaceAndComments | Source/PbrtSceneImporter.cpp:172-188 | stops at the next character that is neither white space nor comment |
| PbrtLexer.Lexer.ReadString | Source/PbrtSceneImporter.cpp:190-221 | the unescaped text up to the closing quote, or nothing when there is none |
| PbrtLexer.Lexer.ReadBare | Source/PbrtSceneImporter.cpp:223-238 | the characters up to the next delimiter |
| PbrtLexer.Lexer.Tokenize | Source/PbrtSceneImporter.cpp:128-156 | the tokens of the whole source, each with its line and column |
| PbrtLexer.QuotedReadsBack | Source/PbrtSceneImporter.cpp:190-221 | a string reads back as it was meant, however its characters are escaped |
| PbrtLexer.LexReadsBack | Source/PbrtSceneImporter.cpp:122-245 | however words, strings and brackets are spaced, commented and escaped, the lexer gives them back in order with the line and column where each starts |
| PbrtLexer.LocationCounts | Source/PbrtSceneImporter.cpp:158-170 | the line is one more than the line breaks before, the column counts from the last of them |
| PbrtLayouts.DelimitersAre | Source/PbrtSceneImporter.cpp:223-238 | a word ends at white space, a bracket, a quote or a comment |
| PbrtLayouts.CommentsAre | Source/PbrtSceneImporter.cpp:181-185 | a comment runs to the end of its line |
| PbrtLayouts.LexedWasPrinted | Source/PbrtSceneImporter.cpp:122-245 | whatever the lexer accepts is words, strings and brackets so laid out |
| PbrtLayouts.AcceptedExactly | Source/PbrtSceneImporter.cpp:122-245 | so it accepts exactly such layouts |
| PbrtParsing.PbrtImporter.AppendElement | Source/PbrtSceneImporter.cpp:1800-1804 | an element goes to the object being defined, else to the root |
| PbrtStatements.RunConcat | Source/PbrtSceneImporter.cpp:1141-1146 | running one list and then another is running both |
| PbrtDirectives.TransformsApply | Source/PbrtSceneImporter.cpp:1258-1265 | a transform that is set replaces the current one, one that is concatenated takes points first |
| PbrtDirectives.SystemsReturn | Source/PbrtSceneImporter.cpp:1266-1276 | a named coordinate system brings back the transform it was given under, whatever was set since, and an unknown name fails |
| PbrtDirectives.WorldStartsAfresh | Source/PbrtSceneImporter.cpp:1183-1188 | the world starts with the identity, the first material, no reversal and no light, and its name |
| PbrtDirectives.MaterialsReturn | Source/PbrtSceneImporter.cpp:1296-1319 | a named material brings back the index it was made with, an unknown name the first |
| PbrtDirectives.ShapesRemember | Source/PbrtSceneImporter.cpp:1357-1362 | a shape becomes the next mesh under the material, orientation and light of its place |
| PbrtDirectives.ShapesAreAdded | Source/PbrtSceneImporter.cpp:1800-1804 | and an element with the current transform at the end of what is being added to, where nothing else changes |
| PbrtDirectives.InstancesAdd | Source/PbrtSceneImporter.cpp:1379-1386 | so does an instance of an object |
| PbrtStatements.StacksImplementBlocks | Source/PbrtSceneImporter.cpp:1189-1208 | the stack machine computes the stackless meaning of well-nested blocks: a block runs its body and puts back what its kind puts back |
| PbrtStatements.MeaningIgnoresStacks | Source/PbrtSceneImporter.cpp:1189-1208 | what a well-nested block does depends on nothing that is on the stacks |
| PbrtStatements.BlocksRestore | Source/PbrtSceneImporter.cpp:1189-1208 | a well-nested block leaves both stacks as they were; Attribute and Object blocks restore the whole graphics state, a Transform block the transform; none fails for a mismatch |
| PbrtBlocks.NestIsSound | Source/PbrtSceneImporter.cpp:1189-1208 | the trees recognised in a statement list are well nested and have its statements, each begin and end with the directory of its own file |
| PbrtBlocks.NestIsComplete | Source/PbrtSceneImporter.cpp:1189-1208 | every well-nested block in front of a list is recognised, whatever follows |
| PbrtBlocks.NestedExactly | Source/PbrtSceneImporter.cpp:1189-1208 | so the test decides whether a list consists of well-nested blocks |
| PbrtBlocks.NestedScans | Source/PbrtSceneImporter.cpp:1189-1208 | a list is well nested exactly when every end closes the innermost open block of its kind and none stays open |
| PbrtBlocks.NestedKeepsStacks | Source/PbrtSceneImporter.cpp:1189-1208 | a list of well-nested blocks leaves both stacks and the active object as they were and never fails for a mismatch |
| PbrtBlocks.EveryBlock | Source/PbrtSceneImporter.cpp:1189-1208 | in any list that runs through, every well-nested block at any depth leaves the stacks as they were and restores what its kind restores |
| PbrtStatements.DefinitionCollects | Source/PbrtSceneImporter.cpp:1363-1386 | an object definition is what the same statements would have put at the root, in place of any earlier definition |
| PbrtParsing.PbrtImporter.StackDirective | Source/PbrtSceneImporter.cpp:1189-1208 | the begin and end directives on the fields of the importer |
| PbrtParsing.PbrtImporter.ParseStatement | Source/PbrtSceneImporter.cpp:1170-1182 | one statement, an include being the file in its place |
| PbrtParsing.IncludesAreTransparent | Source/PbrtSceneImporter.cpp:1172-1182 | includes that flatten to well-nested lists leave the open blocks of the including file as they are |
| PbrtParsing.NestedFile | Source/PbrtSceneImporter.cpp:1132-1148 | around such includes the flat list of a file is well nested exactly when the statements of the file itself are |
| PbrtParsing.IncludesFail | Source/PbrtSceneImporter.cpp:1132-1140 | an include fails at the 64th level, for a file that is missing, open already or not readable, in this order |
| PbrtIncludes.FileInPieces | Source/PbrtSceneImporter.cpp:1132-1182 | what is run for a file is the pieces of its statements in order: each statement with the directory of its own file, each include the whole file found from there, with this file open around it |
| PbrtIncludes.SelfIncludeIsCycle | Source/PbrtSceneImporter.cpp:1138-1138 | a file that begins by including itself fails as a cycle |
| PbrtIncludes.EndsNeedBegins | Source/PbrtSceneImporter.cpp:1189-1378 | an end without its begin and an object within an object fail, each with its own message |
| PbrtParsing.PbrtImporter.ParseFile | Source/PbrtSceneImporter.cpp:1132-1148 | parsing a file is running the flat list with every include expanded in place, up to the first failure; it terminates and restores the set of open files; when the flat list is well nested the stacks and the active object are as before and no mismatch is reported; every well-nested block in it, even one split over includes, restores what its kind restores |
| HeaderValues.DecodePayload | Source/McpServer.cpp:692-716 | the loop computes the pure decoder: groups of four, padding only at the end |
| HeaderValues.EncodedDecodes | Source/McpServer.cpp:692-716 | what section 4 of RFC 4648 encodes decodes to itself |
| HeaderValues.WrappedDecodes | Source/McpServer.cpp:677-718 | a wrapped encoding decodes to its bytes; the empty value is the one exception |
| HeaderValues.SpareBitsAreIgnored | Source/McpServer.cpp:692-716 | setting the spare bits of the last group to zero changes nothing of what any payload decodes to or why it is rejected |
| HeaderValues.AcceptedExactly | Source/McpServer.cpp:692-716 | a payload decodes to these bytes exactly when, its spare bits cleared, it is their encoding |
| HeaderValues.StrictExactly | Source/McpServer.cpp:692-716 | an accepted payload is what section 4 of RFC 4648 writes exactly when its spare bits are zero: four of the last letter before two padding characters, two before one |
| HeaderValues.AlikeExactly | Source/McpServer.cpp:692-716 | two accepted payloads decode alike exactly when they differ at most in the spare bits |
| HeaderValues.LettersAre | Source/McpServer.cpp:667-675 | the letters are those of table 1 of RFC 4648 |
| HeaderValues.WrappingIs | Source/McpServer.cpp:677-718 | what stands between the markers is decoded exactly when it is an encoding up to the spare bits, and else invalid |
| HeaderValues.OthersArePlain | Source/McpServer.cpp:677-685 | any other value is read as itself |
| SecureHash.FewestZeros | Source/BenchmarkHarness.cpp:66-74 | the padding has the least number of zero bytes (FIPS 180-4 section 5.1.1) |
| SecureHash.BigEndianAt | Source/BenchmarkHarness.cpp:75-78 | byte i from the end is the number shifted right by i bytes |
| SecureConstants.BigEndianWrites | Source/BenchmarkHarness.cpp:75-78 | bytes written most significant first are read as the number |
| SecureConstants.WordIsNumber | Source/BenchmarkHarness.cpp:93-99 | a word is the number that its four bytes write |
| SecureConstants.WordBytesWrite | Source/BenchmarkHarness.cpp:81-89 | a word is written as the four bytes that write it |
| SecureConstants.DigestWrites | Source/BenchmarkHarness.cpp:81-90 | the digest is the eight words of the state so written one after the other |
| SecureConstants.RoundConstants | Source/BenchmarkHarness.cpp:27-37 | the round constants are the first 32 bits of the fractional parts of the cube roots of the first 64 primes |
| SecureConstants.InitialState | Source/BenchmarkHarness.cpp:152-156 | the initial state is that of the square roots of the first eight |
| SecureConstants.PaddingIs | Source/BenchmarkHarness.cpp:64-79 | the padding is a bit one, zeros, and the length in bits as 64 bits |
| SecureBits.BigSigmaBits | Source/BenchmarkHarness.cpp:127-131 | the two sums of section 4.1.2, bit by bit: the exclusive or of three places each |
| SecureBits.SmallSigmaBits | Source/BenchmarkHarness.cpp:110-114 | the two functions of the schedule, bit by bit |
| SecureBits.ChoiceBits | Source/BenchmarkHarness.cpp:127-131 | each bit of the choice is that of the second or the third word as the first says, each bit of the majority the more frequent one |
| SecureBits.FirstRound | Source/BenchmarkHarness.cpp:117-141 | the state after the first round for the message "abc" |
| SecureRounds.CompressionIs | Source/BenchmarkHarness.cpp:101-150 | a compression is section 6.2.2 of FIPS 180-4: a schedule of 64 words, 64 rounds and the sums, all modulo 2^32 |
| StreamingSha256.ScheduleStep | Source/BenchmarkHarness.cpp:110-114 | the schedule word of FIPS 180-4 section 6.2.2, in whatever order it is summed |
| StreamingSha256.RoundStep | Source/BenchmarkHarness.cpp:127-140 | one round of section 6.2.2 |
| StreamingSha256.Schedule | Source/BenchmarkHarness.cpp:103-115 | all 64 schedule words |
| StreamingSha256.Sha256.Transform | Source/BenchmarkHarness.cpp:101-150 | the state becomes the compression of the state and the block |
| StreamingSha256.MoreBytes | Source/BenchmarkHarness.cpp:49-61 | what more bytes do to the split of a message into whole blocks and a rest |
| StreamingSha256.Sha256.Update | Source/BenchmarkHarness.cpp:42-62 | the message grows by the bytes, however they meet the block boundaries |
| StreamingSha256.Padded | Source/BenchmarkHarness.cpp:66-79 | the padded message is one block more than the whole ones, or two when the length does not fit |
| StreamingSha256.Sha256.Pad | Source/BenchmarkHarness.cpp:66-79 | padding in the buffer gives the hash of the padded message, in one block or two |
| StreamingSha256.Sha256.Finalize | Source/BenchmarkHarness.cpp:64-90 | the digest is SHA-256 of everything taken in |
| StreamingSha256.HashFile | Source/BenchmarkHarness.cpp:376-403 | the digest does not depend on how the file is cut into reads |
| Dispatcher.CommandDispatcher.Submit | Source/McpDispatcher.cpp:8-31 | refused exactly when the queue is full; otherwise the next id, at the end |
| Dispatcher.CommandDispatcher.ExpireLocked | Source/McpDispatcher.cpp:168-183 | splits the queue by deadline |
| Dispatcher.CommandDispatcher.ProcessOne | Source/McpDispatcher.cpp:33-69 | completes what is expired, then the first command that is ready |
| Dispatcher.CommandDispatcher.Approve | Source/McpDispatcher.cpp:71-82 | marks the one command with this id |
| Dispatcher.CommandDispatcher.Cancel | Source/McpDispatcher.cpp:89-113 | takes out and completes the one command with this id |
| Dispatcher.CommandDispatcher.CancelAll | Source/McpDispatcher.cpp:115-131 | takes out and completes everything |
| Dispatcher.CommandDispatcher.PendingApprovals | Source/McpDispatcher.cpp:133-154 | the commands that still wait for a decision, in queue order, with their request and the whole seconds left |
| DispatcherSteps.ProcessIs | Source/McpDispatcher.cpp:33-69 | in one pass from the front: late commands time out in order, those still without an approval stay, and the first other one is run |
| DispatcherSteps.ApproveMarks | Source/McpDispatcher.cpp:71-82 | an approval marks the command with its id and changes nothing else |
| DispatcherSteps.CancelTakes | Source/McpDispatcher.cpp:89-113 | a cancellation takes the command with its id out and completes it with the reason given |
| DispatcherSteps.AllAreCancelled | Source/McpDispatcher.cpp:115-131 | cancelling everything completes each command with the reason given |
| DispatcherSteps.IdsAreDistinct | Source/McpDispatcher.cpp:8-131 | in every interleaving the ids in the queue differ |
| DispatcherSteps.ApprovedRunsNext | Source/McpDispatcher.cpp:33-82 | a waiting command is run by the next call after its approval when nothing before it is ready |
| Dispatcher.UndecidedShowsWaiting | Source/McpDispatcher.cpp:133-154 | the list shows every waiting command once, in queue order, due within a second of what is shown and not before now when a second or more is shown |
| Dispatcher.ExactlyOnePlace | Source/McpDispatcher.cpp:8-131 | in every interleaving each accepted command is queued, held by one thread or completed, in exactly one of these and once, so no promise is set twice |
| Dispatcher.EveryRunIsLawful | Source/McpDispatcher.cpp:33-82 | nothing runs without an approval it needs, given for its id, or past its deadline when selected; nothing times out early |
| Dispatcher.FreeCommandsRunInOrder | Source/McpDispatcher.cpp:42-50 | under a single processor commands that need no approval complete in order of submission |
| Dispatcher.QueueStaysShort | Source/McpDispatcher.cpp:17-21 | the queue never exceeds sixteen while the limit is not changed |
| ArtifactRegistry.Harness.RegisterArtifact | Source/BenchmarkHarness.cpp:1163-1229 | accepts exactly the described, scheduled artifacts that clash with none, and keeps the register consistent |
| ArtifactRegistry.InputsAreDistinct | Source/BenchmarkHarness.cpp:1196-1224 | uniqueness and schedule make the measured indices of the analysis inputs distinct and below the frame count |
| ArtifactRegistry.FillsTheRange | Source/BenchmarkHarness.cpp:1554-1557 | n increasing numbers below n are 0 to n - 1 |
| ArtifactRegistry.Harness.TemporalReady | Source/BenchmarkHarness.cpp:1541-1557 | ready exactly when every frame is captured and the count is right: the contiguity loop never rejects after the count test |
| ArtifactRegistry.TokensAre | Source/BenchmarkHarness.cpp:424-435 | a token has 1 to 96 letters, digits and the marks allowed |
| ArtifactRegistry.ScheduleExactly | Source/BenchmarkHarness.cpp:1098-1106 | the frames captured are every so many from the end of the warm-up on, while they last |
| ArtifactRegistry.AcceptedExactly | Source/BenchmarkHarness.cpp:1163-1229 | an artifact is accepted exactly with three tokens, a size, a captured frame and its number or none for a final image, a new path, and a role that is new for its frame or image |
| ArtifactRegistry.InputsAre | Source/BenchmarkHarness.cpp:1541-1552 | the analysis takes the linear images of measured frames |
| ArtifactRegistry.RegisteredDiffer | Source/BenchmarkHarness.cpp:1163-1229 | registered artifacts differ in their paths, and in role, phase or frame |
| SparseAccessor.StrideKeepsInside | Source/GltfSceneImporter.cpp:415-418 | the code check keeps every read inside the buffer when the stride is at least one element |
| SparseAccessor.InsideExactly | Source/GltfSceneImporter.cpp:415-418 | for any stride the reads stay inside exactly when the last one does |
| SparseAccessor.ReadsOutsideExactly | Source/GltfSceneImporter.cpp:398-418 | an accessor passes all checks and is read past its buffer exactly when the last element ends outside, which takes a stride below the element size |
| SparseAccessor.OverlapReadsOutside | Source/GltfSceneImporter.cpp:413-418 | there is such an accessor |
| SparseAccessor.LastValueWins | Source/GltfSceneImporter.cpp:458-464 | element i is the last sparse value with index i (section 3.6.2.3 of glTF 2.0) |
| SparseAccessor.UntouchedIsBase | Source/GltfSceneImporter.cpp:429-434 | an element no sparse value names is that of the base view, or zero |
| SparseAccessor.Open | Source/GltfSceneImporter.cpp:398-468 | refused for the first thing wrong; otherwise every element of the view is what the accessor means |
| SparseAccessor.At | Source/GltfSceneImporter.cpp:472-476 | component c of element i of what the accessor means, or an error outside it |
| SparseAccessor.IndexBytes | Source/GltfSceneImporter.cpp:449-457 | sparse indices are unsigned numbers of one, two or four bytes, the least significant first |
| SparseBytes.IndexIs | Source/GltfSceneImporter.cpp:449-464 | each is read where its view, its offset and its stride say |
| SparseBytes.ShownByte | Source/GltfSceneImporter.cpp:398-468 | byte k of element i of an opened accessor is that of the last sparse value for i, else that of the base view, read where offsets and strides say, else zero |
| SparseBytes.OpensExactly | Source/GltfSceneImporter.cpp:398-464 | an accessor is opened exactly when its views have room for every element at its distance, the last read ends inside, and its sparse part has a count, an index type and indices that are in range |
| ImageCompare.SsimBounds | Source/McpReviewAnalysis.cpp:417-437 | the similarity lies in [-1, 1], is symmetric, and is 1 for equal luminances |
| ImageCompare.ErrorBound | Source/McpReviewAnalysis.cpp:375-388 | the squared error is at most the number of channels times the square of the maximum difference |
| ImageCompare.NoErrorExactly | Source/McpReviewAnalysis.cpp:375-388 | the error is zero exactly when no colour channel differs; alpha is not looked at |
| ImageCompare.ComparisonBounds | Source/McpReviewAnalysis.cpp:343-440 | bounds and symmetry of all metrics for images of any size |
| ImageCompare.SameImage | Source/McpReviewAnalysis.cpp:343-440 | an image compared with itself has no error and similarity 1 |
| ImageCompare.CompareImages | Source/McpReviewAnalysis.cpp:343-440 | the loops compute these metrics, and an image of the wrong size is refused |
| ImageMeasures.MaximumIsLargest | Source/McpReviewAnalysis.cpp:375-388 | the maximum difference is at least that of every channel of every pixel, and that of one of them |
| ImageMeasures.ChangedExactly | Source/McpReviewAnalysis.cpp:375-392 | the pixels counted as changed are those with a channel that differs by more than 1/255 |
| ImageMeasures.UniformMeanError | Source/McpReviewAnalysis.cpp:375-410 | images whose channels all differ by d have the mean squared error d squared |
| ImageMeasures.LuminanceWeights | Source/McpReviewAnalysis.cpp:402-405 | the luminance of a grey pixel is its value, and its weights are those of the channels |
| ImageMeasures.SsimOfConstants | Source/McpReviewAnalysis.cpp:417-437 | the similarity of two constant images depends on their means alone, with the constant 0.0001 |
| ImageMeasures.SpreadIsUnbiased | Source/McpReviewAnalysis.cpp:417-437 | variances and covariance are divided by one less than the number of pixels |
| ImageMeasures.SsimOfExchange | Source/McpReviewAnalysis.cpp:417-437 | two pixels that change places, black and white, have similarity -0.9991 / 1.0009 |
| RadianceRows.ChannelDecodes | Scripts/AnalyzeBenchmarkSequence.py:104-121 | however a channel is cut into runs and literals it decodes to itself |
| RadianceRows.DecodedWasEncoded | Scripts/AnalyzeBenchmarkSequence.py:104-121 | whatever decodes is a sequence of runs of 1 to 127 and literals of 1 to 128 |
| RadianceRows.RowsDecode | Scripts/AnalyzeBenchmarkSequence.py:87-122 | a file that mixes compressed and raw rows decodes to its pixels, provided no raw row begins with the marker |
| RadianceRows.RowWasEncoded | Scripts/AnalyzeBenchmarkSequence.py:87-122 | whatever row decodes was encoded, compressed or as raw bytes without the marker |
| RadianceRows.RowsWereEncoded | Scripts/AnalyzeBenchmarkSequence.py:87-122 | so the reader accepts exactly the files that such rows encode and gives their pixels |
| RadianceRows.MarkerLikeRawRow | Scripts/AnalyzeBenchmarkSequence.py:89-91 | at every width a raw row that begins with the marker is decoded as a compressed one whatever follows, and rejected when its fifth byte is zero |
| RadianceRows.RawRowExactly | Scripts/AnalyzeBenchmarkSequence.py:89-91 | a raw row is read back, before any continuation, exactly when it does not begin with the marker or is at the same time a compressed encoding of its own pixels |
| RadianceRows.SelfEncodingExactly | Scripts/AnalyzeBenchmarkSequence.py:104-122 | which decoding the rest of the row by itself tells: it must give these pixels and use up every byte |
| RadianceRows.SelfEncodingStart | Scripts/AnalyzeBenchmarkSequence.py:106-121 | such a row has a fifth byte of 1 to 129 and a sixth of 2, so any other marker-like row is misread |
| RadianceRows.RawRowIs | Scripts/AnalyzeBenchmarkSequence.py:89-96 | a raw row without the marker is its pixels of four bytes each |
| RadianceRows.ExampleRow | Scripts/AnalyzeBenchmarkSequence.py:104-121 | eight equal pixels as the format writes them: runs of 128 plus their length, and a literal |
| RadianceRows.ReadPiece | Scripts/AnalyzeBenchmarkSequence.py:107-121 | one run or literal is written to its place and nowhere else |
| RadianceRows.ReadRows | Scripts/AnalyzeBenchmarkSequence.py:87-122 | the loops compute the decoded rows or raise |
| SequenceVariance.UpdateIsExact | Scripts/AnalyzeBenchmarkSequence.py:503-506 | one more sample: the updated mean and sum of squares are those of all samples |
| SequenceVariance.Analyze | Scripts/AnalyzeBenchmarkSequence.py:484-510 | the one-pass loop computes the mean and the unbiased variance of all frames, and the clamp at zero does nothing |

## Left out

- Floating-point rounding: reals instead, so the exactness of the alias table and the bounds of the comparison are those of exact arithmetic.
- Descriptor identity: the cache knows a texture by its pointer, and reuse of an address by another texture of the same format is not modelled.
- Descriptor indices: unbounded; the 32-bit products of the source stay far below their limit for heaps the device accepts.
- AlignUp: the bit mask is modelled as rounding up to a multiple.
- Pack: the shift and mask of the packed alias word are modelled as arithmetic on the two halves.
- HTTP request lines, headers and the choice between the two body readers: a parser of fixed forms with easy claims; the readers start after the header.
- BodyBudget.BudgetIsConserved: says nothing of fairness; a thread may retry for ever while others succeed.
- ApprovalGrants.ApprovedWasIssued: SHA-256 is any function without a collision among the grants and argument texts of the run, and failures of the system's hash and random provider are not modelled.
- JsonNumber.ToChars: printing is modelled on the seventeen significant digits of a double, which determine it; the conversion from binary is foreign.
- JsonReader.CanonicalIsRead: the parser is functions of the text that is left, not a class with a position; numbers are read as exact decimals, without the conversion to the nearest double or its range, and objects keep their members as a list.
- KeyOrder.Less: orders characters, as the source orders bytes.
- Subscriptions.NothingIsLost: keep-alive comments, the final message and waiting on the condition variable are not modelled; a look may happen at any time.
- Pairing and the legacy sessions of the server.
- PbrtStatements.Exec: operands are what their readers return, so numbers, parameter lists and material, light and mesh data are not read; the Camera directive, which adds a coordinate system, and the cache of PLY meshes are not modelled.
- PbrtLexer.LexReadsBack: whether a word is a number is a parameter, since the library decides it.
- PbrtParsing.PbrtImporter.ParseFile: files are lists of statements, so grouping tokens into statements is not modelled; paths are functions of the file system.
- NrdBackend.NrdBackend.Initialize: every failing device or library call is the one flag `created`; what is created before it is not modelled.
- PbrtInstancing.Importer.ResolveElement: non-finite transforms and the transform of normals are not modelled.
- PbrtInstancing.Importer.ResolveRootObjects: cancellation between roots is not modelled.
- PbrtParsing.PbrtImporter.ParseStatement: its operands are given, as for PbrtStatements.Exec.
- StreamingSha256.Sha256.Update: words are numbers below 2^32, and bits enter only through the logical functions and rotations.
- Dispatcher.EveryRunIsLawful: an executor that throws leaves its promise unset, which is not modelled; ids do not wrap at 2^64.
- ArtifactRegistry.Harness.RegisterArtifact: the statistics of an artifact and the lexical normalisation of its path are not modelled.
- SequenceVariance.Analyze: one pixel, of which every other is a copy; hit masks, the ratio to the mean and its percentiles are not modelled.
- Benchmark metrics, camera path sampling and percentiles.
- SparseAccessor.Open: where the code's checks pass and a read would still leave the buffer, the model refuses the accessor.
- SparseAccessor.At: components stay bytes; their conversion to numbers is not modelled, and offsets do not wrap.
- Index and triangle emission of the glTF importer, tangents and mesh building: bounds of table lookups with easy claims.
- ImageCompare.CompareImages: the heat map and the logarithm of the signal-to-noise ratio are not modelled, and the error is kept as its square.
- RadianceRows.RawRowExactly: whether there is a row that begins with the marker and encodes itself is left open.
- RadianceRows.ReadRows: the header, the orientation flips and the conversion of pixels to floating point are not modelled.
- Device, window, user interface and shader code, and the text builders of the server.
