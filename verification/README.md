# Verification of the cuTile runtime

This project models the self-contained algorithms of the C++ runtime behind the Python kernel DSL,
together with the native launch cache and the index swizzles of a sample kernel, and proves what
they are for. `dafny verify dfyconfig.toml` checks all of it.

| files | subject |
|---|---|
| `PowersOfTwo.dfy`, `FloatFormat.dfy`, `FloatTable.dfy`, `FloatRounding.dfy`, `Fractions.dfy`, `FloatEncode.dfy`, `FloatConversions.dfy`, `FloatDecode.dfy` | the float codec, generic in the format record |
| `FloatFolding.dfy`, `FloatDoubleRounding.dfy` | constant folding of float operations in binary64 |
| `StreamBufferProtocol.dfy`, `StreamBufferReclaim.dfy`, `StreamBufferPool.dfy` | the stream-ordered chunk allocator |
| `ArgumentLayout.dfy`, `ArgumentTypes.dfy`, `ArgumentProfile.dfy` | profiles of nested kernel arguments |
| `Coroutines.dfy` | the coroutine runner with its own stack |
| `PagedTable.dfy`, `DTypeInterning.dfy`, `DTypeUniqueNames.dfy`, `DTypeNaming.dfy` | lock-free tables, derived dtypes and dtype names |
| `DeletionQueue.dfy` | reference-counted values and the intrusive deletion queue |
| `FixedWidthArithmetic.dfy`, `Shapes.dfy`, `PackedShapes.dfy`, `Tensors.dfy` | constant folding of integers, shapes and tensors |
| `Bitstream.dfy` | the bit-level writer |
| `HashMap.dfy` | the open-addressing hash map |
| `ArraySpecialization.dfy` | what kernels are specialized for |
| `LaunchConstants.dfy`, `LaunchArguments.dfy`, `LaunchSpecialization.dfy` | the constants of a launch: the writers, the two parsers, and what the constraints claim of the arguments |
| `Swizzles.dfy` | block-index and scale-factor swizzles |
| `LaunchCache.dfy`, `LaunchKey.dfy` | the launch cache and its keys |

How the source is rendered:

- Words are natural numbers with their width written out: shifts that drop bits, wrap-around and
  bitwise operations are explicit. Values of float encodings are real numbers, and rounding is
  stated by distance, as in sections 3.4, 4.3.1 and 7.4 of IEEE 754-2019. A format without fraction
  bits has odd significands only; there a tie goes to the larger number, which is what the code does.
- Objects whose methods update fields are classes. Protocols are state machines over the smallest
  steps that others can observe, and theorems about them are about every run. The pool's class
  carries the run of the protocol that its methods have gone through.
- A CHECK of the source is an assertion, or a conclusion of the lemma that rules it out.
- Python objects are opaque values with a type; the interpreter, a stream's progress, available
  memory and hash values are parameters about which nothing is assumed.
- Atomic accesses are sequentially consistent. In builds with a global interpreter lock the mutex
  around the creation of dtypes does nothing; the interleavings of such builds are among those here.

What is assumed of callers is what the source assumes of them: at most one open transaction for each
stream; hashes that agree for equal keys; fixed fields of at most 32 bits; formats that satisfy
`FloatFormats.WellFormed`, as all of the table do.

Some results are about limits of the code.

- Decoding and encoding a signaling NaN gives its payload back only if that payload is 1
  (`FloatDecode.RoundTrip`; `FloatDecode.PayloadIsLost` is an example).
- The counter of named dtypes has the width of an id and wraps around once the last id, 2^32 - 1, has
  a name; then it can be smaller than a call's own number, although a comment at cext/dtype.cpp:294
  says that it is greater. Until the last id has a name, `dtype_name(id)` makes at most 6 id + 10
  accesses (`DTypeNaming.DTypeNameIsWaitFree`). From then on every new call returns at its first
  access (`DTypeNaming.NewCallsReturnAtOnce`), and a call that is in progress returns within a bound
  exactly if it is at its first access, past the loop, or for id 0 (`DTypeNaming.ReturnsIff`). All
  others can be held up for any number of accesses by the call that has named the last id, which
  itself never returns (`DTypeNaming.LastIdNeverReturns`). There are runs that reach such states for
  every id but 0 (`DTypeNaming.CallIsHeldUp`).
- The check for disjoint elements is right if the products that it compares fit 64 bits; one that
  does not fit can mislead it (`ArraySpecialization.OverflowMisleads`).
- An axis that is annotated twice is noticed when constants are read, not when they are written
  (`LaunchConstants.ReadFailsIffRepeated`).

## Model

| member | source | states |
|---|---|---|
| FloatFormats.TableIsWellFormed | cext/dtype.cpp:43-61 | Every format of the table satisfies the relations between its fields that the rounding routine relies on, and all but binary64 have only values that binary64 has. |
| FloatTable.OneIffBiased | cext/dtype.cpp:22-39 | A format has the exponent range of the IEEE bias exactly if exponent field 2^(expBits-1) - 1 with fraction 0 encodes 1.0. |
| FloatTable.TableEncodes | cext/dtype.cpp:27-39 | Each entry of the table by its figures: its width, the encodings of 1.0 and of the largest finite number, that number (65504, 448, 114688, 57344, 6, 7.5, 28, and significand times power of two for the wide ones), and the smallest positive number. |
| FloatFormats.CodeOrderIsValueOrder | cext/dtype.h:59-74 | Magnitude encodings are in the order of the numbers they stand for, subnormal and normal ones and formats without a zero alike. |
| FloatFormats.PackedCode | cext/dtype.cpp:567-572 | Adding a significand with its explicit leading one to an exponent that is one too low gives the right encoding, also for subnormal significands and after a carry into the next power of two. |
| FloatFormats.RoundingIsUnique | cext/dtype.cpp:532-533 | Rounding to nearest with ties to even leaves no choice. |
| FloatRounding.UnboundedCodeRounds | cext/dtype.cpp:545-572 | For every well-formed format, exponent and significand of any length, the assembled encoding is the nearest number of the format, ties going to the even one, with gradual underflow. |
| Fractions.U64Fraction.Lshift | cext/dtype.cpp:453-465 | Shifting left by n returns the upper n bits and leaves the others, for n from 0 to 64. |
| Fractions.U64Fraction.GreaterThanOne | cext/dtype.cpp:467 | The rest is above one half of the last kept bit. |
| Fractions.U64Fraction.EqualsOne | cext/dtype.cpp:468 | The rest is exactly one half of the last kept bit. |
| Fractions.LongFraction.SplitTopByte | cext/dtype.cpp:471-475 | The top byte is split into its upper bits and the rest. |
| Fractions.LongFraction.Lshift | cext/dtype.cpp:487-510 | The byte vector meets the same contract as the word: the upper n bits are returned, and what is left are the other bits. |
| Fractions.LongFraction.GreaterThanOne | cext/dtype.cpp:512-520 | True exactly when the remaining bits are more than half of their range. |
| Fractions.LongFraction.EqualsOne | cext/dtype.cpp:522-528 | True exactly when the remaining bits are half of their range. |
| FloatEncode.EncodePartsCorrect | cext/dtype.cpp:534-580 | The whole routine, for every format: correctly rounded, overflow to infinity, NaN or the largest number as the format has it, negative numbers rejected by unsigned formats. |
| FloatEncode.ConversionIsUnique | cext/dtype.cpp:534-580 | The specification of a conversion allows one result only. |
| FloatEncode.NonFiniteCorrect | cext/dtype.cpp:388-425 | Infinities overflow, and NaNs keep the upper part of their payload, in every kind of format. |
| FloatConversions.EncodeFloatParts | cext/dtype.cpp:534-580 | The routine run on either significand representation returns what the function of its inputs returns. |
| FloatConversions.EncodeFloat | cext/dtype.cpp:592-630 | Any binary64 number, subnormal and non-finite ones included, is converted correctly. |
| FloatConversions.EncodeIntAsFloat | cext/dtype.cpp:632-648 | Any signed or unsigned 64-bit integer is rounded correctly. |
| FloatConversions.EncodePylongAsFloat | cext/dtype.cpp:650-673 | Any integer of any size is rounded correctly. |
| FloatConversions.LittleEndianHoldsBits | cext/dtype.cpp:650-673 | The bytes of a big integer form a fraction with no byte to spare. |
| FloatDecode.DecodeIsExact | cext/dtype.cpp:675-720 | A finite encoding decodes to the binary64 number of the same sign and value. |
| FloatDecode.NonFiniteDecodes | cext/dtype.cpp:675-720 | A non-finite encoding decodes to a non-finite number with its payload moved to the top. |
| FloatDecode.RoundTrip | cext/dtype.cpp:592-720 | Encoding after decoding is the identity exactly on encodings other than signaling NaNs whose payload is not 1; those come back with payload 1. |
| FloatDecode.PayloadIsLost | cext/dtype.cpp:592-720 | The signaling NaN 0x7c02 of float16 comes back as 0x7c01. |
| FloatFolding.TableIsHalfOfFloat64 | cext/value.cpp:2331-2333 | Every format of the table but binary64 has less than half of its precision and exponent range. |
| FloatFolding.ProductIsExact | cext/value.cpp:2331-2333 | The product of two finite numbers of such a format is a binary64 number. |
| FloatFolding.ExactResultRoundsOnce | cext/value.cpp:2334-2344 | If the exact result of an operation is a binary64 number, encoding it back rounds it once. |
| FloatFolding.FoldedProduct | cext/value.cpp:2331-2351 | A folded multiplication returns the exact product of its operands, rounded once to the format. |
| FloatDoubleRounding.CloseToResult | cext/value.cpp:2331-2333 | A number of few bits that binary64 rounds x to is within half a unit in the last place of x. |
| FloatDoubleRounding.SecondRoundingIsHarmless | cext/value.cpp:2331-2344 | If x is not close to a midpoint of the format without being it, rounding to binary64 and then to the format is rounding once. |
| FloatDoubleRounding.SumIsSeparated | cext/value.cpp:2345-2349 | Sums and differences of two numbers of the format are not close to a midpoint without being it. |
| FloatDoubleRounding.QuotientIsSeparated | cext/value.cpp:2352 | Neither are quotients. |
| FloatDoubleRounding.FoldedSum | cext/value.cpp:2331-2349 | A folded addition or subtraction returns the exact result, rounded once, overflow included. |
| FloatDoubleRounding.FoldedQuotient | cext/value.cpp:2331-2352 | A folded division returns the exact quotient, rounded once. |
| StreamBufferProtocol.StepKeeps | cext/stream_buffer.cpp:60-258 | Each smallest step, by the code or by a stream that makes progress, keeps the invariant. |
| StreamBufferProtocol.RunsKeepInvariant | cext/stream_buffer.cpp:60-258 | The invariant holds in every state of every run. |
| StreamBufferProtocol.RunsAreSafe | cext/stream_buffer.cpp:150-258 | Allocations in use lie inside a chunk of their own stream, 16-byte aligned, and share no byte; every chunk is in one place; the capacity CHECK of the free list never fires. |
| StreamBufferProtocol.ReuseAfterRelease | cext/stream_buffer.cpp:158-165 | Bytes are given out again only after an event that was recorded on their stream at or after the close of their transaction has completed. |
| StreamBufferProtocol.ReclaimedIsReleased | cext/stream_buffer.cpp:69-79 | A chunk that leaves its stream's list holds nothing in use. |
| StreamBufferProtocol.ReleaseIsFinal | cext/stream_buffer.cpp:60-258 | What has been released is never in use again. |
| StreamBufferReclaim.FinishedIsFree | cext/stream_buffer.cpp:60-101 | After a poll of all streams, every chunk of the current capacity that had finished, with all chunks before it and before the open transaction, is on the free list. |
| StreamBufferReclaim.PolledIsReused | cext/stream_buffer.cpp:154-158 | If there was a free or finished chunk of the current capacity, the free list is not empty after the poll. |
| StreamBufferPools.StreamBufferPool.QueryEvent | cext/stream_buffer.cpp:72 | An event query sees whether the event's stream has got that far by then. |
| StreamBufferPools.StreamBufferPool.PollEvents | cext/stream_buffer.cpp:69-79 | Chunks at the head of the list whose events have completed are given back; the list then starts with the open transaction's first chunk or with one that had not completed when it was asked. Each is a step of the protocol. |
| StreamBufferPools.StreamBufferPool.ReclaimChunk | cext/stream_buffer.cpp:60-67 | The head chunk leaves its list. It goes to the front of the free list exactly if it has the current capacity. |
| StreamBufferPools.StreamBufferPool.Reclaim | cext/stream_buffer.cpp:81-101 | Afterwards every stream buffer is open or not empty, and its list starts with its open transaction's first chunk or with one that had not completed; each chunk of the current capacity that left a list is on the free list, and only closed buffers were dropped. It is a series of protocol steps. |
| StreamBufferPools.StreamBufferPool.MoveLast | cext/stream_buffer.cpp:89-94 | The swap with the last entry drops exactly one empty stream buffer. |
| StreamBufferPools.StreamBufferPool.GrowCapacity | cext/stream_buffer.cpp:168-174 | The least doubling into which the request fits four times, or none if the size limit comes first. |
| StreamBufferPools.StreamBufferPool.PopFree | cext/stream_buffer.cpp:158-166 | A chunk of the free list has the current capacity. |
| StreamBufferPools.StreamBufferPool.AllocateChunk | cext/stream_buffer.cpp:150-179 | If new chunks are large enough for the request, the capacity stays, and a chunk is reused whenever one is free or finished; there is none only if the driver has no memory. Otherwise the capacity grows to the least doubling. The chunk has room for the request at least four times. |
| StreamBufferPools.StreamBufferPool.Open | cext/stream_buffer.cpp:189-210 | Opening a transaction is the protocol's step. |
| StreamBufferPools.StreamBufferPool.Allocate | cext/stream_buffer.cpp:212-238 | If the tail of the list has room, the bytes are the last that are left in it, and nothing else happens. If not, a finished chunk is reused if there is one. The bytes are those of the last protocol step, the next multiple of 16 as many. There are none only for a request near SIZE_MAX, without memory, or if the capacity cannot grow; then nothing has been given out. |
| StreamBufferPools.StreamBufferPool.Close | cext/stream_buffer.cpp:240-258 | One event is recorded in each chunk from the transaction's first one on, which is the protocol's step. |
| ArgumentLayout.NextLevel | cext/tile_kernel.cpp:3909-3916 | Expanding the aggregates of a level in order gives the next level. |
| ArgumentLayout.TraversalIsDepthFirst | cext/tile_kernel.cpp:3717-3740 | From any reachable position of the cursors, the traversal yields the rest in depth-first order, the indices of the leaves in order, and ends with all cursors at the end of their levels. |
| ArgumentLayout.WholeTraversal | cext/tile_kernel.cpp:3676-3746 | For every nested argument list, empty tuples included, the traversal of the level order yields the parenthesised depth-first order and the leaves of the recursive flattening. |
| ArgumentLayout.VisitsEachOnce | cext/tile_kernel.cpp:3742-3745 | The traversal visits every entry exactly once. |
| ArgumentTypes.TypesAreSignature | cext/tile_kernel.cpp:3651-3665 | The types in depth-first order are the parenthesised notation of the tree: each leaf's own type, each aggregate's own type before its items. |
| ArgumentTypes.LeafTypesAreOfLeaves | cext/tile_kernel.cpp:3612-3622 | The k-th leaf type in that order is the type of the k-th leaf. |
| ArgumentTypes.SameSignatureIffSameTypes | cext/tile_kernel.cpp:3612-3622 | Two argument lists have the same types in depth-first order exactly if their trees agree in shape and in every type. |
| ArgumentProfile.LevelOffsets | cext/tile_kernel.cpp:3690-3706 | The offsets that are computed along the path are the starts and ends of the levels. |
| ArgumentProfile.FoundIffAggregate | cext/tile_kernel.cpp:3624-3633 | The linear search finds an entry exactly for the aggregates of the level. |
| ArgumentProfile.Breadth2Depth | cext/tile_kernel.cpp:3676-3746 | The loop computes the specified traversal, and none of its CHECKs fires. |
| ArgumentProfile.SizesCheck | cext/tile_kernel.cpp:3710-3715 | The number of leaves that is computed in advance from the number of aggregates is the right one. |
| ArgumentProfile.ProfileFitsAnyCall | cext/tile_kernel.cpp:3823-3830 | The indices of a cached profile gather the leaves of any later call with the same tree of types. |
| ArgumentProfile.SharedIffSameTypes | cext/tile_kernel.cpp:1191-1205 | Two calls end at the same node of the cache exactly if their trees agree in shape and in every type. |
| ArgumentProfile.PushObjects | cext/tile_kernel.cpp:3612-3622 | Objects and types of a list are appended, with a sentinel after them. |
| ArgumentProfile.ExpandAggregateArgs | cext/tile_kernel.cpp:3909-3916 | The listed aggregates are expanded one after the other. |
| ArgumentProfile.ClassifyLevel | cext/tile_kernel.cpp:3843-3852 | Exactly the aggregates of the level are listed, by position. |
| ArgumentProfile.ProfileCache.Lookup | cext/tile_kernel.cpp:3799-3926 | Whatever has been looked up before, the leaves are those of this call in order, and the types are its own; a wrong number of arguments and nesting deeper than 64 are errors exactly when they should be. Cached nodes stay; afterwards there is a profile for this call's tree of types and for those from before, and for no other; a call whose tree has one finds it and changes nothing. |
| Coroutines.LoopFollowsCall | cext/coroutine_util.cpp:41-97 | Whatever is on the stack below, the loop runs a coroutine to the outcome of its recursive call and leaves the result or exception for whoever awaited it. |
| Coroutines.CallFollowsLoop | cext/coroutine_util.cpp:41-97 | When the loop gets back below a frame, the recursive call of that frame has ended in the same way. |
| Coroutines.MoreFuel | cext/coroutine_util.cpp:41-97 | How many nested calls are allowed does not change the outcome. |
| Coroutines.EndsBySend | cext/coroutine_util.cpp:43-70 | How a call ends after send(): with its result or exception, or by calling what it awaits and being resumed with that call's own end. |
| Coroutines.EndsByThrow | cext/coroutine_util.cpp:73-97 | The same after throw(): a StopIteration that it raises is a return of its value, any other exception ends the call, and a returned coroutine is awaited. |
| Coroutines.LoopIsCall | cext/coroutine_util.cpp:29-105 | The loop ends with an outcome exactly when the recursive evaluation does. |
| Coroutines.Runner.Cleanup | cext/coroutine_util.cpp:17-23 | All coroutines of the stack are closed, innermost first. |
| Coroutines.Runner.RunCoroutine | cext/coroutine_util.cpp:29-105 | The result or exception of the main coroutine's recursive evaluation is returned; awaiting something else closes all active coroutines and is a TypeError. |
| PagedTables.CellOfIndex | cext/paged_table.h:61-65 | Every 32-bit index has its own cell, inside one of the pages. |
| PagedTables.IndexOfCell | cext/paged_table.h:61-65 | Every cell of every page has an index. |
| PagedTables.StepKeeps | cext/paged_table.h:33-59 | Under every interleaving each array belongs to the table or to the one thread that is about to publish or delete it, and none is leaked. |
| PagedTables.RunsKeepInvariant | cext/paged_table.h:33-59 | That holds in every state of every run. |
| PagedTables.HeldIsAccessible | cext/paged_table.h:33-38 | A reference that has been returned points into a live array for as long as it is held. |
| PagedTables.TableIsAnArray | cext/paged_table.h:16-22 | The table is one array of zeros: a step changes an element only by storing to it. |
| PagedTables.OneCellPerIndex | cext/paged_table.h:16-22 | References obtained by any threads at any times are the same cell exactly when the indices are equal. |
| PagedTables.ExpectNeverFires | cext/paged_table.h:40-47 | The CHECK of expect() does not fire once someone's operator[] on the index has returned. |
| DTypeInterning.StepKeeps | cext/dtype.cpp:111-302 | Every access of every thread keeps the invariant, and takes nothing back that others may have seen. |
| DTypeInterning.RunsKeepInvariant | cext/dtype.cpp:111-302 | The invariant holds in every state of every interleaving. |
| DTypeInterning.SameIdIffSameRequest | cext/dtype.cpp:111-129 | Two calls by any threads at any times get the same id exactly when they ask for the same kind, memory space and pointee. |
| DTypeInterning.GettersInvertConstructors | cext/dtype.cpp:162-199 | The getters give back what the id was made from, with no CHECK firing; an id is greater than its pointee's. |
| DTypeInterning.NamesAreFullNames | cext/dtype.cpp:236-302 | Every name that is returned is the full name of the dtype, pointee and memory space included, and stays so. |
| DTypeUniqueNames.SameNameIffSameId | cext/dtype.cpp:236-302 | Two names returned to any threads at any times are equal exactly if the dtypes are. |
| DTypeUniqueNames.OpaqueNames | cext/dtype.cpp:248-268 | The name of an opaque pointer, spelled out for each memory space. |
| DTypeUniqueNames.PointerNames | cext/dtype.cpp:248-273 | The name of any other pointer, spelled out for each memory space, around the name that any call gets for the pointee; and that of a foreign pointer. |
| DTypeUniqueNames.RunsPublish | cext/dtype.cpp:111-129 | In every state all records are in the slot of their request, except perhaps the last one, whose request has no slot yet; so no two records are the same. |
| DTypeInterning.RunsAreSafe | cext/dtype.cpp:236-302 | All ids below the naming counter have names; only running out of ids aborts the program; dtype_name calls itself at most once, and that call returns at its first access. |
| DTypeInterning.NullOnlyWithoutMemory | cext/dtype.cpp:287-289 | No name is returned only when a string could not be allocated. |
| DTypeNaming.RunsKeepLast | cext/dtype.cpp:278-302 | Until the last id has a name the counter does not wrap around; once it has one, all ids have, and the call that gave it is looping for the last id. |
| DTypeNaming.AccessesCount | cext/dtype.cpp:278-302 | Each access of a call lowers a bound on what is left of it, whatever the others do, unless the last id has a name and the call is in the loop for an id other than 0. |
| DTypeNaming.DTypeNameIsWaitFree | cext/dtype.cpp:278-302 | Until the last id has a name, a call makes at most 6 id + 10 accesses, whatever other threads do; a call for id 0 does so at any time. |
| DTypeNaming.LastIdNeverReturns | cext/dtype.cpp:285-300 | In every run, a call for the id 2^32 - 1 that is past its first access is still in progress in every later state, unless an allocation of its own fails; it is never blocked. |
| DTypeNaming.LastIdReturnsIffNamed | cext/dtype.cpp:278-302 | A call for the id 2^32 - 1 returns exactly if the name is there at its first access. |
| DTypeNaming.CallInFlight | cext/dtype.cpp:111-129 | A run hands out all ids; then none has a name, and a call for any id, the last one included, is in progress. |
| DTypeNaming.CounterTo | cext/dtype.cpp:285-300 | A thread that loops for the last id can bring the counter to any number by itself. |
| DTypeNaming.OneMoreTurn | cext/dtype.cpp:295-299 | A call for an id other than 0 that meets such a thread loses its compare-exchange to a number that is again not above its id, and goes round the loop once more. |
| DTypeNaming.NewCallsReturnAtOnce | cext/dtype.cpp:278-280 | Once the last id has a name, every call that begins returns the name at its first access. |
| DTypeNaming.ReturnsIff | cext/dtype.cpp:278-302 | In every reachable state in which the last id has a name, a call in progress returns within a bound in all continuations exactly if it is at its first access, past the loop, or for id 0. |
| DTypeNaming.CallIsHeldUp | cext/dtype.cpp:278-302 | For every id but 0 there is a reachable state with a call for it that makes any number of accesses without returning in some continuation. |
| DTypeNaming.WaitFreeIff | cext/dtype.cpp:278-302 | The calls for an id return within a bound in all runs exactly if the id is 0. |
| DeletionQueues.DecodeEncode | cext/value.h:654-665 | Tag and pointer of an encoded value are recovered, and no encoded pointer is the end of the list. |
| DeletionQueues.Memory.Decrement | cext/ref_ptr.h:37-47 | The count goes down by one; its CHECK is a proof obligation. |
| DeletionQueues.DeletionQueue.Push | cext/value.cpp:283-287 | The value becomes the head of the list, with its count as the link to the former head. |
| DeletionQueues.DeletionQueue.Release | cext/value.cpp:341-367 | One reference is given up: all counts are still the numbers of references, and the value joins the queue exactly if that was the last one. Python objects are released. |
| DeletionQueues.DeletionQueue.ReleaseItems | cext/value.h:793-797 | All items of a value that is being deleted are released, each once. |
| DeletionQueues.DeletionQueue.Drain | cext/value.cpp:289-304 | Every queued value is deleted once, whatever that makes deletable is deleted, too, and the loop ends; what is left is unchanged, with counts equal to its references. |
| DeletionQueues.FreesExactlyTheUnreachable | cext/value.cpp:264-304 | On an acyclic heap, exactly the values that the remaining references do not reach are gone. |
| DeletionQueues.Destroy | cext/value.cpp:335-339 | Destroying a value frees exactly what is not reachable any more, keeps the counts right, and releases each reference to a Python object once. |
| FixedWidthArithmetic.UnsignedAdd | cext/value.cpp:755-760 | The exact sum, or overflow exactly if it does not fit. |
| FixedWidthArithmetic.SignedAdd | cext/value.cpp:762-767 | The exact sum in sign-extended form, or overflow exactly if it does not fit. |
| FixedWidthArithmetic.UnsignedSub | cext/value.cpp:769-773 | The exact difference, or overflow exactly if it is negative. |
| FixedWidthArithmetic.SignedSub | cext/value.cpp:775-780 | The exact difference, or overflow exactly if it does not fit. |
| FixedWidthArithmetic.CarryOfSum | cext/value.cpp:755-760 | The expression of bitwise operations is the carry out of the topmost bit. |
| FixedWidthArithmetic.SignChange | cext/value.cpp:762-767 | The expression of bitwise operations tells whether the sum's sign differs from that of both operands. |
| FixedWidthArithmetic.SignDifference | cext/value.cpp:775-780 | The same for a difference. |
| FixedWidthArithmetic.SignedIntFitsIsRange | cext/value.cpp:605-607 | Comparing two arithmetic shifts tests the range of the width. |
| FixedWidthArithmetic.UnsignedIntFitsIsRange | cext/value.cpp:609-611 | So does the shift for unsigned values. |
| FixedWidthArithmetic.SignedMul | cext/value.cpp:782-788 | The exact product, or overflow exactly if it does not fit. |
| FixedWidthArithmetic.UnsignedMul | cext/value.cpp:790-805 | The exact product, or overflow exactly if it does not fit. |
| FixedWidthArithmetic.SignedFloorDiv | cext/value.cpp:807-821 | The floor of the quotient from truncating division, an error for a zero divisor, and overflow exactly if the quotient does not fit. |
| FixedWidthArithmetic.SignedCeilDiv | cext/value.cpp:823-837 | The same for the ceiling. |
| FixedWidthArithmetic.UnsignedFloorDiv | cext/value.cpp:879-882 | The floor of the quotient, which always fits. |
| FixedWidthArithmetic.UnsignedCeilDiv | cext/value.cpp:884-887 | The ceiling of the quotient, which always fits. |
| FixedWidthArithmetic.SignedMod | cext/value.cpp:889-900 | The remainder has the sign of the divisor and completes the floor of the quotient. |
| FixedWidthArithmetic.UnsignedMod | cext/value.cpp:902-905 | The remainder completes the quotient. |
| FixedWidthArithmetic.DivisionLaw | cext/value.cpp:807-900 | Whenever the quotient fits, quotient times divisor plus remainder is the dividend. |
| FixedWidthArithmetic.IntPowNonnegative | cext/value.cpp:839-854 | Square and multiply returns the exact power, or overflow exactly if the power does not fit: no intermediate square overflows for nothing. |
| FixedWidthArithmetic.SquareStaysOut | cext/value.cpp:848-850 | If a square that is still needed does not fit, the power does not fit either. |
| FixedWidthArithmetic.SignedPow | cext/value.cpp:856-871 | The exact power; for negative exponents the fraction truncated toward zero, and an error for base 0. |
| FixedWidthArithmetic.UnsignedPow | cext/value.cpp:873-877 | The exact power, or overflow exactly if it does not fit. |
| FixedWidthArithmetic.TruncateToSigned | cext/value.cpp:645-648 | The sign-extended word with the same low bits. |
| FixedWidthArithmetic.TruncateToUnsigned | cext/value.cpp:650-653 | The low bits. |
| FixedWidthArithmetic.SignedIsUnique | cext/value.cpp:645-648 | There is only one sign-extended word with given low bits. |
| Shapes.CheckedNumel | cext/value.cpp:180-187 | The number of elements, or nothing exactly if it is above 2^63 - 1. |
| Shapes.BroadcastShapes | cext/value.cpp:221-263 | The least common shape, an error exactly for incompatible shapes, and another exactly for too many elements. |
| Shapes.JoinIsLeast | cext/value.cpp:221-263 | Compatible shapes broadcast to the least shape that both broadcast to. |
| Shapes.BroadcastIsCommutative | cext/value.cpp:221-263 | The order of operands does not matter, not for the kind of error either. |
| Shapes.BroadcastIsAssociative | cext/value.cpp:221-263 | The order of broadcasting three shapes does not matter, not for whether it fails either. |
| Shapes.ScalarIsNeutral | cext/value.cpp:136-142 | Broadcasting with a scalar shape or with itself changes nothing. |
| PackedShapes.UnpackOfPacked | cext/value.cpp:107-118 | Unpacking gives the dimensions that were packed, from the words or from the heap. |
| PackedShapes.PackOfUnpacked | cext/value.cpp:207-219 | Packing keeps the dimensions, and allocates only if there is no block yet. |
| PackedShapes.WordsFit | cext/value.cpp:70-87 | No bit of an inline shape is shifted out of its two 64-bit words. |
| PackedShapes.InlineIffSmall | cext/value.cpp:60-93 | At most six dimensions of at most 20 bits are stored in the words, without allocating; all other shapes are on the heap. |
| PackedShapes.CreatedUnpacks | cext/value.cpp:200-205 | The constructor of an unpacked shape stores the dimensions inline or in a new block. |
| PackedShapes.UnpackedRoundTrip | cext/value.cpp:107-219 | A shape that starts unpacked keeps its dimensions when it is packed and unpacked again. |
| PackedShapes.RoundTrip | cext/value.cpp:70-118 | Any shape, packed and unpacked, is itself; packed again it is the same two words, which are 64-bit words. |
| PackedShapes.EqualWords | cext/value.cpp:136-138 | Equal words mean equal shapes, which broadcast to themselves; small shapes are equal exactly if their words are. |
| Tensors.ComputeStrides | cext/value.cpp:2005-2011 | The strides of the source, zero along repeated dimensions. |
| Tensors.DotIsRavel | cext/value.cpp:2005-2025 | The offset that the strides give is the row-major position of the projected index. |
| Tensors.NextIndex | cext/value.cpp:2020-2025 | Counting up with carries goes to the next element in row-major order, and the offset follows. |
| Tensors.BroadcastTo | cext/value.cpp:1997-2028 | Every element of the result is the source element at the projected multi-index; all accesses are in bounds. |
| Tensors.BroadcastIsUnique | cext/value.cpp:1997-2028 | That determines the result. |
| Tensors.SplatBroadcasts | cext/value.cpp:1994-1996 | Broadcasting a repeated element is repeating it more often. |
| Tensors.ElementwiseIsPointwise | cext/value.cpp:2073-2086 | The loop succeeds exactly if the operation succeeds on all pairs, and otherwise reports the first failure. |
| Tensors.ApplyBinary | cext/value.cpp:2088-2131 | The result or error depends on the elements only, not on which operands are stored as one repeated element. |
| Bitstream.BitstreamWriter.AppendFixed | cext/bitstream.cpp:17-29 | The stream grows by the bits of the field, lowest first, whatever is buffered. |
| Bitstream.BitstreamWriter.AppendVbr | cext/bitstream.cpp:31-40 | The stream grows by the variable width encoding of the value. |
| Bitstream.VbrIsAppended | cext/bitstream.cpp:31-40 | The chunks written are that encoding. |
| Bitstream.VbrRoundTrip | cext/bitstream.cpp:31-40 | A variable width integer is read back whatever follows it. |
| Bitstream.BitstreamWriter.PyAppendFixed | cext/bitstream.cpp:42-53 | A value that is too big for the field is an error and changes nothing. |
| Bitstream.BitstreamWriter.Align32 | cext/bitstream.cpp:103-111 | Zeros are added up to the next word boundary, and the buffer is empty. |
| Bitstream.BitstreamWriter.AlignToWord | cext/bitstream.cpp:113-117 | The number of words is returned. |
| Bitstream.BitstreamWriter.AlignedWord | cext/bitstream.cpp:119-128 | A word is added at a word boundary, and its position returned. |
| Bitstream.BitstreamWriter.PatchWord | cext/bitstream.cpp:130-148 | Exactly the bits of that word are replaced, or an error is reported for a word that is not complete. |
| Bitstream.LatePatch | cext/bitstream.cpp:119-148 | Reserving a word and patching it later is the same as having written it in the first place, whatever other operations came in between. |
| Bitstream.ExecutedInOrder | cext/bitstream.cpp:42-165 | Operations take effect one after the other, and one that raises an error is as if it had not been there. |
| Bitstream.BitstreamWriter.RawBlob | cext/bitstream.cpp:150-165 | The bytes are added at a word boundary and padded to the next. |
| Bitstream.BitstreamWriter.ToBytes | cext/bitstream.cpp:167-180 | The bytes hold the bits of the stream padded to a word boundary, and the stream is left as it was. |
| HashMaps.MaskIsRemainder | cext/hash_map.h:102-107 | Masking a number with a power of two less one, as every probe does, is the remainder. |
| HashMaps.HashMap.Lookup | cext/hash_map.h:100-109 | The probe ends; it finds the key if it is there, and otherwise the empty bucket that the key belongs to. |
| HashMaps.NotFound | cext/hash_map.h:100-109 | A probe that has ended at an empty bucket has not missed the key. |
| HashMaps.HashMap.Find | cext/hash_map.h:63-68 | The key's item is found exactly if the map has the key. |
| HashMaps.HashMap.Rehash | cext/hash_map.h:111-138 | The buckets double, and the map is the same. |
| HashMaps.HashMap.MoveItem | cext/hash_map.h:120-131 | An item moves to the first empty bucket of its probe in the new table. |
| HashMaps.HashMap.Insert | cext/hash_map.h:70-87 | The association is added unless the key has one already, which is kept; the CHECK after rehashing never fires; the load stays at one half at most. |
| ArraySpecialization.SortIsSorted | cext/tile_kernel.cpp:1401-1408 | The axes are sorted by stride and shape, all of them. |
| ArraySpecialization.DisjointCheckIsSound | cext/tile_kernel.cpp:1410-1423 | If the check succeeds and the products that it compares fit 64 bits, distinct multi-indices within the shape have distinct offsets, for any rank. |
| ArraySpecialization.OverflowMisleads | cext/tile_kernel.cpp:1417-1422 | A product that does not fit makes the check succeed for an array with two elements in the same place. |
| ArraySpecialization.CheckDisjoint | cext/tile_kernel.cpp:1410-1423 | The loop computes the check, on 64-bit words. |
| ArraySpecialization.DivisibilityTests | cext/tile_kernel.cpp:1367-1375 | The tests on 64-bit words decide divisibility of the mathematical products, also when these wrap around. |
| ArraySpecialization.ComputeBits | cext/tile_kernel.cpp:1356-1426 | Each bit is set exactly under its condition, and a set disjointness bit is true unless a compared product has overflown. |
| ArraySpecialization.BitsOfList | cext/tile_kernel.cpp:1495-1505 | Each array's bits are set exactly under their conditions; after intersecting over the list, every set bit is true of every array of it. |
| LaunchConstants.ArrayTypeRoundTrip | cext/tile_kernel.cpp:1316-1327 | Dtype and rank of an array are recovered from their common word. |
| LaunchConstants.IntRoundTrip | cext/tile_kernel.cpp:2173-2201 | An integer that has been written is read back, signed or unsigned. |
| LaunchConstants.StaticRoundTrip | cext/tile_kernel.cpp:1545-1577 | The words of the annotated axes are read in the order in which they were written, each for its own axis, and the CHECK on the axis does not fire. |
| LaunchConstants.LeafRoundTrip | cext/tile_kernel.cpp:2781-2828 | Whatever follows, the first parser reads exactly the words that an argument has written and recovers its value; no CHECK fires. |
| LaunchConstants.ReadFailsIffRepeated | cext/tile_kernel.cpp:1562-1577 | Reading raises an error exactly if the annotation of an array repeats an axis, under whatever sign. |
| LaunchConstants.EqualConstantsMeanTheSame | cext/tile_kernel.cpp:3973-3985 | For given kinds and annotations, equal constants mean equal constraints, so a cached kernel fits every launch that finds it. |
| LaunchConstants.NativeRoundTrip | cext/tile_kernel.cpp:4183-4221 | The second parser reads exactly the words that an argument has written, and keeps its array type, pointee or object. |
| LaunchConstants.BothPathsWriteTheSame | cext/tile_kernel.cpp:4325-4442 | For equal values the Python path and compiled host code write the same words. |
| LaunchConstants.KindsOfLeaves | cext/tile_kernel.cpp:4234-4237 | Skipping the aggregates leaves the kinds of the leaves, in their order. |
| LaunchSpecialization.PackedBits | cext/tile_kernel.cpp:163-191 | Which bit of the 64-bit word stands for which flag, axis by axis. |
| LaunchSpecialization.PackOfIntersection | cext/tile_kernel.cpp:1503-1506 | The bitwise conjunction of two words is the word of the intersection. |
| LaunchSpecialization.Specialize | cext/tile_kernel.cpp:1356-1426 | The word computed for an array holds exactly its bits, at their positions. |
| LaunchSpecialization.ArrayConstraintIsTrue | cext/tile_kernel.cpp:1614-1715 | Every constant size or stride of a constraint is that of every array it was made for. An axis has one exactly if it is annotated, or nothing is annotated, the rank is at most five and all arrays have size or stride one there. All set bits are true of all arrays. |
| LaunchSpecialization.ClaimsAreTrue | cext/tile_kernel.cpp:1658-1715 | The other claims of a constraint hold for every array, too: the alignment of the address, elements that do not alias unless a compared product has overflown, and the divisors of strides, in elements, and of sizes. |
| LaunchSpecialization.SignatureIsTrue | cext/tile_kernel.cpp:3972-3985 | For all arguments of a launch, nested to any depth, the constraint of each leaf is true of it. |
| LaunchArguments.LaunchHelper.ExtractList | cext/tile_kernel.cpp:2348-2435 | A list writes its first array's words with the bits that all arrays have, or raises an error if the arrays disagree. |
| LaunchArguments.LaunchHelper.ExtractArgs | cext/tile_kernel.cpp:2726-2742 | The constants are the words of all arguments in order, or one of them cannot be written. |
| LaunchArguments.LaunchHelper.ExtractNative | cext/tile_kernel.cpp:4453-4510 | Compiled host code writes for its values the constants that the Python path writes for them. |
| LaunchArguments.CheckAgreement | cext/tile_kernel.cpp:1481-1493 | Two arrays agree exactly if they have the same words at all annotated axes. |
| LaunchArguments.ConstraintParser.ParseParam | cext/tile_kernel.cpp:2849-2885 | One argument, nested to any depth, is recovered with its structure, and all three cursors are at the next one. |
| LaunchArguments.ConstraintParser.ParseParameterConstraints | cext/tile_kernel.cpp:2887-2909 | All arguments are recovered, and at the end only the final sentinel is left: none of the CHECKs fires. |
| LaunchArguments.NativeParser.ParseArguments | cext/tile_kernel.cpp:4223-4249 | All leaves are recovered for the launch site, and the cursors are empty at the end. |
| LaunchArguments.MakeSignature | cext/tile_kernel.cpp:3972-3985 | Writing the arguments of a launch and reading the constants without the compute capability gives the constraints of the arguments. |
| LaunchArguments.MakeLaunchSite | cext/tile_kernel.cpp:4282-4308 | Writing and reading back gives what the launch site keeps of each argument. |
| Swizzles.SwizzleInGrid | samples/BlockScaledMatMul.py:77-88 | Every block gets a tile of the grid. |
| Swizzles.SwizzleOfBlock | samples/BlockScaledMatMul.py:77-88 | Every tile is the tile of a block, also in a short last group, whose rows are rotated. |
| Swizzles.BlockOfSwizzle | samples/BlockScaledMatMul.py:77-88 | No two blocks get the same tile. |
| Swizzles.SwizzleIsBijective | samples/BlockScaledMatMul.py:77-88 | For all matrix, tile and group sizes, blocks and tiles correspond one to one. |
| Swizzles.TilesCoverRows | samples/BlockScaledMatMul.py:77-80 | Every row of the matrix is in one of the tiles that are counted, and each of them has a row. |
| Swizzles.PermuteTwice | samples/BlockScaledMatMul.py:104-106 | Exchanging two dimensions of a tensor twice gives the tensor back, for all shapes. |
| Swizzles.UnswizzleInvertsSwizzle | samples/BlockScaledMatMul.py:25-107 | Unswizzling a swizzled scale tensor gives it back, for every M divisible by 128 and K_s divisible by 4. |
| Swizzles.SwizzledElement | samples/BlockScaledMatMul.py:25-40 | Where each element of the scale tensor goes. |
| LaunchCaches.LaunchCache.Lookup | backends/launch.h:266-273 | A hit returns the entry and makes its key the last used one; a miss changes nothing. |
| LaunchCaches.LaunchCache.Insert | backends/launch.h:285-317 | The association is added or replaced as the last used one, and the least recently used one is dropped if there are too many. |
| LaunchCaches.LaunchCache.Size | backends/launch.h:319-322 | The number of associations. |
| LaunchCaches.RunsKeepShape | backends/launch.h:259-317 | After any run the keys are distinct and at most as many as the limit. |
| LaunchCaches.RecentlyUsedStays | backends/launch.h:259-317 | An entry is found again as long as fewer than `limit` other keys have been used since its last use. |
| LaunchCaches.InsertMeans | backends/launch.h:303-316 | An inserted entry is found, instead of an older one; every other key keeps its entry, except that the least recently used one is dropped if the key is new and the cache is full. |
| LaunchCaches.LaunchMeans | backends/launch.h:266-273 | A launch changes no entry, and makes its key the last used one if it is found. |
| LaunchCaches.OrderIsKept | backends/launch.h:272-309 | The other entries keep their order of use. |
| LaunchKeys.Describe | backends/launch.h:350-457 | The key is the encoding of the descriptions of all arguments, or there is none as soon as one cannot be described. |
| LaunchKeys.KeysAreUnique | backends/launch.h:350-457 | For given constant flags, equal keys mean equal descriptions. |
| LaunchKeys.SameBitIffSameAlignment | backends/launch.h:443-445 | The lowest bits of two addresses are equal exactly if the same powers of two divide them. |
| LaunchKeys.SameKeyIffSameForKernel | backends/launch.h:350-457 | Two launches have the same key exactly if their arguments agree in type, in value where they are constants, and as tensors in element type, shape, strides and alignment. |
| LaunchKeys.DescribedIff | backends/launch.h:350-457 | There is a key exactly if all constants are numbers of 64 bits and all tensors are on the device, not constants, without singleton dimensions and negative strides. |

## Left out

- Launch constants: where the bit fields are in their word is taken from the common ABI. A constraint
  keeps its divisors and its alias flag as that word. Ranges of scalars and array words, calling
  conventions, dtype objects and the interning of strings are not modelled.
- Annotations, dataclasses and argument kinds: aggregates are tuples, and the annotation tree is not
  flattened against them.
- Profile cache: its tree of maps is one map keyed by the path of level keys; reference counts of
  types are not modelled.
- Chunk lists: sequences of chunks that are named by number, instead of links; the free list of empty
  stream buffers, which only recycles memory, is not there. A transaction finds its stream buffer by
  stream number.
- CUDA: failing driver calls other than running out of memory, and what kernels do with the bytes.
- Code run by Python when an object is released or an argument is inspected: it does not call back
  into the modelled structure.
- Value copies (`Value::add_reference`) and the direct deletion of a value whose last `RefPtr` goes
  away: easier cases of the counts that releasing and draining keep.
- Reference counts of heap-allocated shape dimensions: blocks of dimensions are never freed here.
- Float `//`, `%`, `**` and atan2, which call Python; min and max, whose treatment of NaN the source
  marks as open; the dispatch from dtypes to the operations.
- Symbolic tensors and everything in `cuda.tile._ir`.
- Weak memory orderings, and fairness of locks.
- `pack` of the launch cache, IPC payloads, tensor maps and kernel loading.
- FloatDoubleRounding.FoldedQuotient: for divisors other than zero; division by zero is an error
  before anything is rounded.
- ArraySpecialization.CheckDisjoint: signed overflow, which has no meaning in the source's language,
  wraps around here.
- ArraySpecialization.DisjointCheckIsSound: one direction only, as the check is meant to be
  conservative: strides that interleave can be disjoint without passing it.
- HashMaps.HashMap.Insert: requires that the CHECK of `rehash` on the number of buckets does not fire,
  if rehashing is needed.
- StreamBufferPools.StreamBufferPool.AllocateChunk: of the driver's failures only exhausted memory.
- StreamBufferPools.StreamBufferPool.Open: the driver call for the number of the stream does not fail.
- ArgumentProfile.ProfileCache.Lookup: without annotations, argument kinds, dataclasses and the errors
  of classifying arguments.
- Coroutines.Runner.RunCoroutine: requires that the recursive evaluation ends; when it does not, the
  loop does not end either, by `Coroutines.LoopIsCall`. Looking up the value of a StopIteration does
  not fail.
