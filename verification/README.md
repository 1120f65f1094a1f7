# Verified models of an inference engine's core

Infero is a language-model inference engine: Rust crates for weights, kernels and device memory, and
Python scripts that transcribe the reference arithmetic the Rust code is held against. This project
models the parts whose correctness is hardest to see and proves what their users rely on. `dafny
verify dfyconfig.toml` checks all of it.

| area | modules |
|---|---|
| AWQ repacking, the word transpose, fusion, the three quantizers | `Workers`, `Q4Block`, `AwqLayout`, `AwqTranspose`, `AwqCheckpoint`, `Rounding`, `AwqQuantize`, `AwqQuantizeQ4`, `AwqAccuracy` |
| GGUF files: values, header, row and column shards | `Bytes`, `GgufValue`, `GgufReader`, `GgmlTypes`, `GgufFile`, `GgufRoundTrip`, `GgufBytes`, `GgufAccepted`, `GgufShards`, `GgufPayload` |
| gated delta rule and partial RoPE | `RealVectors`, `DeltaRule`, `DeltaLayer`, `DeltaLaws`, `Rope` |
| vision geometry | `MixedRadix`, `VisionPatches`, `VisionTaps`, `VisionBatch`, `VisionSegments`, `SmartResize` |
| compiled-kernel cache | `SourceKey`, `KernelCache`, `KernelOnce`, `KernelCalls` |
| symbolic reading of a forward pass | `ForwardReading`, `ForwardMeaning`, `ForwardRuns`, `ForwardExactness`, `ForwardDraft` |
| device windows | `DeviceWindows` |
| paged and flat key/value addressing | `PagedKv` |

`Arith`, `RealArith` and `Options` hold what several modules share.

## How the code is represented

* Bytes and packed words are bit vectors where the code works on bits (AWQ), and numbers below 256
  where it works on positions (GGUF, hashing, device memory). A half-precision number is a 16-bit
  pattern with an exact reading and an uninterpreted rounding, of which only this is assumed: a number
  that came from a pattern survives being stored again, and, where an accuracy is stated, storing a
  number costs no more than a given part of it plus a given amount.
* Floating-point arithmetic is over exact reals. `exp`, `rsqrt`, `sigmoid`, `softplus`, `sqrt`, `cos`,
  `sin`, the power function, the attention inside one segment, the CUDA compiler and the meaning of the
  read program's operations are parameters; each theorem names the laws it needs of them.
* Worker threads are programs of byte stores under an arbitrary schedule. The loops that fill a buffer
  return the stores they issue as a ghost trace, and the workers' programs are those traces. A `get` on the kernel
  cache is a sequence of steps that other threads' steps and other processes' writes interleave with.
* Errors the code returns and panics it runs into are outcomes of the modelled operations, not
  preconditions. Failures of the file system, the compiler and the driver are inputs.

## Where the code and its documentation disagree

The models follow the code.

* `transpose_words` documents `new[c*16 + w*4 + i] = old[w*16 + c*4 + i]`; the code also sends byte `i`
  of a word to place `[0, 2, 1, 3][i]` (`crates/kernels/src/awq.rs:209`, `:242-243`). The rearrangement
  with that extra step is its own inverse all the same (`AwqTranspose.ShuffleIsInvolution`).
* `KernelCache::get` documents that two labels with identical source share a module. Modules are keyed
  by label alone: such labels are compiled and loaded separately, and one label with two sources answers
  from the first (`KernelCalls.TwoLabelsDoNotShare`, `KernelCalls.AnswerIsRightIff`).
* `source_key` is described as FNV-1a, but it multiplies by `0x1000_0000_01b3`, which is 2^44 + 0x1b3
  and not the published prime 2^40 + 0x1b3 (`crates/cuda/src/nvrtc.rs:162`). The multiplier is odd, and
  that is all that telling edits apart needs.
* `rope_tables` documents rows of width `rot`; for an odd `rot` they are one wider (`Rope.TableRow`).
* `Buf::transmute` asks that the byte count fit, and measures it against the allocation, which has at
  least one byte: an empty buffer can be retyped to that byte
  (`DeviceWindows.TransmuteBufferStaysInAllocation`).

## Where a natural expectation fails

Each comes with an input on which it fails and the exact condition under which it holds.

* A label's module is loaded at most once: threads that overlap on an uncached label may both load it
  (`KernelOnce.TwoThreadsMayLoadTwice`). It holds when no call begins against `KernelOnce.Exclusive`, and
  a call that does can always lead to a second load (`KernelOnce.EachLabelIsLoadedOnce`,
  `KernelOnce.OverlapMayLoadTwice`).
* A name's final descriptor means what the name holds: augmented and annotated assignments, targets that
  are not names, starred tuples and block headers change names behind the walk's back, and blocks are read
  once however often they run (`ForwardExactness.AugmentedAssignmentIsLost`,
  `ForwardExactness.BranchNotTaken`, `ForwardExactness.LoopTakenTwice`). It holds on every run for the names
  that `ForwardMeaning.Mark` does not mark in the body (`ForwardRuns.UnmarkedIsRightOnEveryRun`), and on a
  given run, for the names it does not mark along the run, exactly where the run reads alike
  (`ForwardExactness.RightExactlyWhereRunReadsAlike`); without blocks, exactly for the unmarked names
  (`ForwardExactness.MarkedIsWrong`).
* The kept result is what the function returns: the walk keeps the last `return` on purpose, and a run may
  leave by an earlier one (`ForwardRuns.EarlyReturnIsLost`). When the one taken is clean, the two agree
  exactly when they read alike (`ForwardExactness.ReturnsAgreeExactly`); when the early exits are not taken,
  what `ForwardRuns.LastReturnIsRead` asks is enough.
* `smart_resize` stays within the maximum: a side held at the factor, or one scaled up to whole tiles, may
  overshoot it (`SmartResize.HeldSideOvershoots`, `SmartResize.RaisedStripOvershoots`,
  `SmartResize.MaximumIsRespectedIff`).
* A contiguity test that answers yes licenses flat addressing: its 32-bit sum may wrap around
  (`PagedKv.WrapIsMissed`). A yes is right exactly when the first slot and the number of slots add up to no
  more than 2^31 (`PagedKv.TestIsRightIff`), as they do for slots that are not negative
  (`PagedKv.SlotsNeverWrap`).

## Model

| member | source | states |
|---|---|---|
| `Workers.EveryScheduleIsSeparate` | crates/kernels/src/awq.rs:136-147 | at every point of every schedule of workers that share no byte, each byte holds what its own worker alone has put there so far, and unowned bytes are unchanged |
| `Workers.ScheduleIsIrrelevant` | crates/kernels/src/awq.rs:136-147 | two schedules that let all workers finish leave the same memory |
| `Workers.EveryScheduleIsSequential` | crates/kernels/src/awq.rs:136-147 | workers that share no byte leave, in any interleaving, the memory that running their programs one after another leaves |
| `Workers.Job.StoresWrite` | crates/kernels/src/awq.rs:136-147 | a worker that runs the stores of some units puts exactly those units in place and changes no other byte |
| `Workers.Job.WorkersAreDisjoint` | crates/kernels/src/awq.rs:142-145 | workers that get consecutive chunks of rows store inside the buffer and share no byte, whatever the chunk size |
| `Workers.Job.EveryInterleavingFills` | crates/kernels/src/awq.rs:136-147 | however many workers share a job whose stores fall on different bytes, and however they interleave, they leave what the one loop over all units leaves: every unit in place |
| `Q4Block.PackingIsUnique` | crates/kernels/src/awq.rs:151-179 | the packed form of a matrix is determined byte for byte |
| `Q4Block.BlockRoundTrip` | crates/kernels/src/awq.rs:169-176 | decoding element j of a packed block gives code j of that row and group under that block's scale and offset |
| `Q4Block.UnpackRow` | crates/kernels/src/awq.rs:183-198 | the reader's loops return the row whose elements are the decoded block elements in order |
| `Q4Block.PackedRowDecodes` | crates/kernels/src/awq.rs:183-198 | any packed row reads back, at every input, as its code times the group's stored scale less its stored offset |
| `Q4Block.PackedRowLocal` | crates/kernels/src/awq.rs:183-198 | a row depends on its own blocks only, so it reads the same inside any larger buffer |
| `AwqLayout.NibbleOfInvertsOrder` | crates/kernels/src/awq.rs:33-46 | the two nibble tables are inverse permutations |
| `AwqLayout.FieldReadsAutoAwqWord` | crates/kernels/src/awq.rs:33-46 | reading any of the eight offsets of a word written in the scrambled order gives the code that was written for it |
| `AwqLayout.AwqTensor.InRange` | crates/kernels/src/awq.rs:61-115 | a tensor that passes the shape check has every word and scale that its codes, zeros and scales are read from |
| `AwqLayout.FillRows` | crates/kernels/src/awq.rs:151-179 | one worker's loops issue exactly the stores of its rows' blocks, in block order, write those blocks and leave every other byte alone |
| `AwqLayout.FillBlock` | crates/kernels/src/awq.rs:156-177 | one block's 68 stores write the scale, the offset and the paired codes, and no other byte changes |
| `AwqLayout.Repack` | crates/kernels/src/awq.rs:128-149 | refuses exactly the malformed tensors with their reason, aborts exactly on an empty one, and otherwise returns the packing of the tensor's matrix for every thread count |
| `AwqLayout.RepackRows` | crates/kernels/src/awq.rs:128-149 | the chunk loop issues the stores of all rows in order whatever the number of threads |
| `AwqLayout.AnyInterleavingPacks` | crates/kernels/src/awq.rs:136-147 | however many workers share the rows, each issuing the stores of its own rows, and however these interleave, they touch disjoint bytes and leave the packed matrix |
| `AwqLayout.RepackedRowDecodes` | crates/kernels/src/awq.rs:91-115 | row r of a repacked tensor decodes at each input k to code(k, r) under that group's stored scale and offset |
| `AwqLayout.ScaleIsStoredExactly` | crates/kernels/src/awq.rs:157-169 | the scale survives repacking exactly |
| `AwqLayout.RepackedWeightError` | crates/kernels/src/awq.rs:112-115 | a repacked weight differs from the dequantized one by the rounding of the folded offset and nothing else |
| `AwqCheckpoint.WrittenIsRead` | crates/kernels/src/awq.rs:61-110 | a tensor whose words were written, in AutoAWQ's order, from given codes, zeros and scales passes the shape check, and its code, zero and scale at every place are the ones written for that input, group and output |
| `AwqCheckpoint.WrittenWeight` | crates/kernels/src/awq.rs:112-115 | the weight of input i for output r is the written code less the written zero of its group, times the written scale |
| `AwqCheckpoint.CheckIsExact` | crates/kernels/src/awq.rs:61-89 | exactly the tensors with whole groups of inputs, whole words of outputs and a word or scale for each place are accepted; the first thing amiss is the reason |
| `AwqCheckpoint.PackedBytes` | crates/kernels/src/awq.rs:151-179 | each packed block is the scale and the offset, low byte first, and then code i and code i + 64 in the low and the high half of byte 4 + i |
| `AwqTranspose.ShuffleIsInvolution` | crates/kernels/src/awq.rs:238-246 | the per-block rearrangement is its own inverse |
| `AwqTranspose.TransposeIsBijective` | crates/kernels/src/awq.rs:227-250 | the transpose of whole tensors loses no byte and repeats none: it has a two-sided inverse on buffers |
| `AwqTranspose.TransposeWords` | crates/kernels/src/awq.rs:227-250 | the loop nest produces the transposed form of the first bytes of its input, for every shape, and aborts exactly when they are not all there |
| `AwqTranspose.UnpackRowT` | crates/kernels/src/awq.rs:285-304 | aborts exactly when the buffer ends before the row does, and otherwise returns the row defined by undoing the rearrangement byte by byte |
| `AwqTranspose.TransposedRowDecodesAlike` | crates/kernels/src/awq.rs:285-304 | for any packed bytes, reading a row of the transposed form equals reading that row of the packed form |
| `AwqTranspose.TransposedRepackDecodes` | crates/kernels/src/awq.rs:227-250 | repacked, transposed and read back, row r gives at each k exactly code(k, r) with its group's stored scale and offset |
| `AwqTranspose.TransposedRowDecodes` | crates/kernels/src/awq.rs:285-304 | the same for any 4-bit matrix in packed form |
| `AwqTranspose.ConcurrentRepackDecodes` | crates/kernels/src/awq.rs:128-149 | end to end: repacked by any number of workers in any interleaving, transposed and read back, row r gives at each k exactly code(k, r) with its group's stored scale and offset |
| `AwqCheckpoint.WrittenReadsBack` | crates/kernels/src/awq.rs:128-149 | repacked, and repacked and transposed, row r reads at every input as the code written for it times the group's written scale, less the stored product of that scale and the written zero |
| `AwqCheckpoint.ConcurrentlyWrittenReadsBack` | crates/kernels/src/awq.rs:128-149 | the same of the buffer that any number of workers in any interleaving leave behind, in terms of what was written into the checkpoint |
| `AwqCheckpoint.TransposedBytes` | crates/kernels/src/awq.rs:227-250 | all code bytes come first, byte i of word c of run w of a block at place [0, 2, 1, 3][i] of word w of run c, and then the blocks' scale pairs |
| `AwqTranspose.ConcatT` | crates/kernels/src/awq.rs:272-282 | copies both regions of both inputs to the two regions of the result, and aborts exactly when one is cut short |
| `AwqTranspose.StackingCommutes` | crates/kernels/src/awq.rs:252-282 | stacking transposed tensors equals transposing the stacked packed tensors, byte for byte, for all row counts |
| `AwqTranspose.FusedRowsDecode` | crates/kernels/src/awq.rs:252-282 | every row of a fused tensor decodes to the row of the tensor it came from |
| `Rounding.HalfStep` | crates/kernels/src/awq.rs:401-407 | quantizing with any positive step and reading back is off by at most half a step |
| `Rounding.SymmetricStep` | crates/kernels/src/awq.rs:401-407 | a value no larger than 127 steps gets a code in range without clamping, off by at most half a step, the zero step included |
| `Rounding.RoundAway` | crates/kernels/src/awq.rs:406 | the result is within a half of the number, and of two integers as close it is the one further from zero |
| `AwqQuantize.AbsMaxIsReached` | crates/kernels/src/awq.rs:401 | the bound on a block's magnitudes is attained |
| `AwqQuantize.Q8Error` | crates/kernels/src/awq.rs:400-407 | a Q8_0 code is within half a step of its value and the clamp never bites |
| `AwqQuantize.InterleavedError` | crates/kernels/src/awq.rs:376-413 | a weight read back from the quantized tensor is within half a step plus the rounding of the stored step |
| `AwqQuantize.LayoutsAgree` | crates/kernels/src/awq.rs:326-413 | the split and the interleaved layout hold the same codes and the same scales, block for block |
| `AwqAccuracy.InterleavedIsAccurate` | crates/kernels/src/awq.rs:376-413 | where every weight of a block is at most m, each weight read from the bytes of the interleaved tensor (scale in the block's first two bytes, then signed codes) is within m/254 of the source weight plus the relative and absolute cost of storing numbers up to m/127 in half precision |
| `AwqAccuracy.SplitIsAccurate` | crates/kernels/src/awq.rs:326-374 | the same of the split tensor, whose codes all come first and whose scales follow |
| `AwqAccuracy.BytesMean` | crates/kernels/src/awq.rs:404-407 | a stored code is its number modulo 256, and a stored scale its low byte and then its high byte |
| `AwqAccuracy.ShapeIsExact` | crates/kernels/src/awq.rs:327-335 | a tensor is accepted exactly when its rows are whole blocks and there is a whole number of them |
| `AwqQuantize.FillQ8Block` | crates/kernels/src/awq.rs:395-408 | quantizing one block issues its 34 stores, wherever the layout puts scale and codes, and changes no other byte |
| `AwqQuantize.QuantizeQ8` | crates/kernels/src/awq.rs:376-413 | refuses bad shapes with their reason, aborts exactly on an empty source, and otherwise issues the stores of all blocks in order and yields the interleaved tensor, for every thread count |
| `AwqQuantize.QuantizeQ8Split` | crates/kernels/src/awq.rs:326-374 | the same for the layout with separate code and scale regions |
| `AwqQuantize.AnyInterleavingQuantizes` | crates/kernels/src/awq.rs:391-412 | any number of workers, each issuing the stores of its own blocks, share no byte and in any interleaving leave the quantized tensor |
| `AwqQuantize.AnyInterleavingQuantizesSplit` | crates/kernels/src/awq.rs:342-373 | the same for workers that share rows and each write two regions |
| `AwqQuantizeQ4.GroupError` | crates/kernels/src/awq.rs:463-485 | a Q4 code is in 0..15 without clamping and within half a step of its value |
| `AwqQuantizeQ4.Q4Error` | crates/kernels/src/awq.rs:437-492 | a weight read back by the packed reader is within half a step plus what rounding the stored step and offset costs |
| `AwqAccuracy.Q4IsAccurate` | crates/kernels/src/awq.rs:437-492 | where every weight of a group lies between lo and hi, neither further than m from zero, the packed reader is within a thirtieth of hi - lo of each source weight plus what storing the step and the offset in half precision costs |
| `AwqQuantizeQ4.FillGroup` | crates/kernels/src/awq.rs:464-485 | quantizing one group issues the 68 stores of its block, in order |
| `AwqQuantizeQ4.QuantizeQ4` | crates/kernels/src/awq.rs:437-492 | refuses bad shapes, aborts exactly on an empty source, and otherwise issues the stores of all blocks in order and returns the packing of the quantized matrix |
| `AwqQuantizeQ4.AnyInterleavingQuantizesQ4` | crates/kernels/src/awq.rs:456-490 | any number of workers in any interleaving share no byte and leave the packed form of the quantized matrix |
| `GgufReader.Reader.Take` | crates/gguf/src/reader.rs:26-41 | yields the next n bytes or an error that leaves the cursor where it was |
| `GgufReader.Reader.ReadUInt` | crates/gguf/src/reader.rs:43-88 | a fixed-width read succeeds exactly when the bytes are there |
| `GgufReader.Reader.ReadString` | crates/gguf/src/reader.rs:90-100 | the cursor reading agrees with the positional specification, error cases included |
| `GgufReader.Reader.ReadValueOf` | crates/gguf/src/reader.rs:107-123 | the same for values of every type; terminates on every input |
| `GgufReader.Reader.ReadArray` | crates/gguf/src/reader.rs:125-177 | the same for arbitrarily nested arrays |
| `GgufValue.WidthCheckIsExact` | crates/gguf/src/reader.rs:133-155 | the check made before a fixed-width array is read refuses exactly the arrays whose element loop would run out of bytes |
| `GgufValue.ValueRoundTrip` | crates/gguf/src/reader.rs:102-177 | parsing any printed value, nested arrays included, returns it and stops exactly at what follows |
| `GgufValue.PrintingIsPrefixFree` | crates/gguf/src/reader.rs:102-177 | no printed value is the beginning of another |
| `GgufBytes.LowestByteFirst` | crates/gguf/src/reader.rs:43-88 | byte i of a stored number is its digit i in base 256 |
| `GgufBytes.StoredModuloWidth` | crates/gguf/src/reader.rs:43-88 | exactly the four signed types are stored in two's complement, every other number as it is |
| `GgufBytes.ValueTypesAreNumberedInOrder` | crates/gguf/src/value.rs:197-235 | the thirteen value types have the numbers 0 to 12 in the format's order, with their widths |
| `GgmlTypes.DiscriminantsAgree` | crates/gguf/src/types.rs:46-80 | the on-disk tags and the reader's table are inverse to each other |
| `GgmlTypes.TypesAreNumberedInOrder` | crates/gguf/src/types.rs:11-43 | the types have the numbers 0 to 30 in the format's order, with 4 and 5 unused |
| `GgmlTypes.SmallBlocksAreTheirFields` | crates/gguf/src/types.rs:83-116 | a block of 32 elements is as long as its half-precision scales and minima and its elements' bits together |
| `GgmlTypes.SuperBlocksAreTheirFields` | crates/gguf/src/types.rs:83-122 | a block of 256 elements is as long as its elements' bits, its sub-blocks' scales and its own scales together |
| `GgmlTypes.PlainTypesAreNumbers` | crates/gguf/src/types.rs:83-100 | exactly the eight plain number types have one element to a block, each as wide as its name says |
| `GgufFile.ReadTensorInfo` | crates/gguf/src/lib.rs:468-498 | reads one index entry as the specification does, with the overflow and block-size errors |
| `GgufFile.FromMmap` | crates/gguf/src/lib.rs:77-138 | opens exactly the files whose header parses and whose tensors all lie inside the mapping, and returns what the header says |
| `GgufFile.ValidateExtents` | crates/gguf/src/lib.rs:142-157 | succeeds exactly when every tensor's bytes lie inside the file |
| `GgufRoundTrip.InfoRoundTrip` | crates/gguf/src/lib.rs:468-498 | parsing a printed index entry returns it and stops at its end |
| `GgufRoundTrip.LastPairWins` | crates/gguf/src/lib.rs:94-103 | a repeated metadata key has its last value |
| `GgufRoundTrip.EveryInfoIsRegistered` | crates/gguf/src/lib.rs:113-120 | with distinct names the index holds every entry under its own name |
| `GgufRoundTrip.DuplicateIsRefused` | crates/gguf/src/lib.rs:113-120 | a second tensor of the same name is refused whatever follows |
| `GgufRoundTrip.HeaderRoundTrip` | crates/gguf/src/lib.rs:77-138 | opening a file that begins with a printed header gives back version, metadata, index and the aligned start of the data |
| `GgufBytes.HeaderFields` | crates/gguf/src/lib.rs:80-122 | the magic number, the version and the two counts sit at bytes 0, 4, 8 and 16, the pairs start at byte 24 and the entries follow them |
| `GgufBytes.EntryFields` | crates/gguf/src/lib.rs:468-498 | an entry holds the length of the name, the name, the number of dimensions, the dimensions, the type and the offset at the stated places |
| `GgufPayload.KeysSpell` | crates/gguf/src/lib.rs:27-28 | a file begins with the letters GGUF and the alignment's key is general.alignment |
| `GgufPayload.AlignmentIsTheLastSaid` | crates/gguf/src/lib.rs:104-111 | the alignment is the last general.alignment pair's number if it is a whole number that is not negative (a truth value counts as zero or one), and 32 if it is anything else or there is none |
| `GgufPayload.LaidOutOpens` | crates/gguf/src/lib.rs:77-157 | a file with a printed header, padding to the next multiple of the alignment and every payload at its entry's offset from there opens, with the data section where the padding ends and exactly the written entries, each with its own payload |
| `GgufAccepted.AcceptedHeader` | crates/gguf/src/lib.rs:77-157 | conversely, a file whose header is accepted begins with the magic number and version 2 or 3, has a power of two for an alignment and its data at a multiple of it, and holds as many entries as it says, under different names |
| `GgufAccepted.ReadEntryIsSound` | crates/gguf/src/lib.rs:468-498 | an accepted entry has one to four dimensions whose product is its number of elements, in whole blocks, and the bytes those blocks take |
| `GgufAccepted.PowersAreDoublings` | crates/gguf/src/lib.rs:109-111 | the alignment test accepts exactly the powers of two |
| `GgufShards.RowReadsStayInside` | crates/gguf/src/lib.rs:204-241 | after a successful open, a row read of a tensor aborts in two named cases only and never leaves the mapping |
| `GgufShards.RowShardsConcatenate` | crates/gguf/src/lib.rs:222-241 | row shards over any consecutive partition concatenate to the tensor's bytes |
| `GgufShards.ColumnReadsStayInside` | crates/gguf/src/lib.rs:259-350 | after a successful open, a column read aborts only when a range runs backwards |
| `GgufShards.TensorShardCols` | crates/gguf/src/lib.rs:259-290 | the single-range read is the one-range case of the multi-range specification, with the same error for each bad input |
| `GgufShards.TensorShardColsMulti` | crates/gguf/src/lib.rs:305-350 | the loops over rows and ranges produce the specified bands row by row |
| `GgufShards.MultiIsPerRowConcatenation` | crates/gguf/src/lib.rs:292-350 | each row of a multi-range read is the concatenation of that row of the single-range reads |
| `GgufShards.ColumnShardsReinterleave` | crates/gguf/src/lib.rs:305-350 | one read of all ranges of a consecutive block-aligned partition gives the tensor's bytes |
| `GgufShards.SingleReadSucceeds` | crates/gguf/src/lib.rs:259-290 | every single-range read of such a partition succeeds |
| `GgufShards.SeparateShardsReinterleave` | crates/gguf/src/lib.rs:259-290 | the shards that the ranks read separately over any such partition, put back row by row, are the tensor's bytes |
| `GgufPayload.RowShardsGivePayload` | crates/gguf/src/lib.rs:204-241 | where the file holds a payload at a tensor's offset, each row shard is the payload's rows and the joined shards are the payload |
| `GgufPayload.ColumnShardIsPayload` | crates/gguf/src/lib.rs:259-290 | row r of a column shard is the payload's row r from the byte of the first column to that of the last |
| `GgufPayload.ColumnShardsGivePayload` | crates/gguf/src/lib.rs:259-350 | separate column shards put back row by row, and one read of all their ranges, are the payload |
| `GgufPayload.RowReadSucceedsIff` | crates/gguf/src/lib.rs:222-241 | a row read of an opened file's tensor gives bytes exactly when the tensor has a last dimension that divides its bytes, the range ends inside it, and the range runs forward or there are no bytes |
| `GgufPayload.ColumnReadSucceedsIff` | crates/gguf/src/lib.rs:259-350 | a column read gives bytes exactly when there are two dimensions, every range runs forward between block boundaries inside the first, and the rows make up the tensor's bytes |
| `GgufPayload.EveryMatrixReadsBack` | crates/gguf/src/lib.rs:77-350 | end to end: every matrix of a file laid out by a writer, with rows of whole blocks, gives its own payload back in row shards and in column shards over any partitions |
| `RealVectors.ProductIsAssociative` | tools/capture_qwen35_layers.py:191-194 | matrix products built from weighted sums of rows are associative |
| `DeltaRule.StepIsAffine` | tools/capture_qwen35_layers.py:190-193 | one token acts on the state as decay(I - beta k k') S + beta k v' |
| `DeltaRule.ChunkActsAffinely` | tools/capture_qwen35_layers.py:189-194 | any chunk of tokens acts on an arbitrary entering state as one affine map |
| `DeltaRule.ChunkMapsCompose` | tools/capture_qwen35_layers.py:189-194 | the maps of consecutive chunks compose to the map of the whole |
| `DeltaRule.EveryChunkingAgrees` | tools/capture_qwen35_layers.py:189-197 | every chunking, each chunk computed from its entering state by maps alone, gives the token loop's outputs and final state |
| `DeltaRule.StepDoesNotExpand` | tools/capture_qwen35_layers.py:190-193 | a step with a short key, beta in [0,1] and decay in (0,1] never increases the squared distance of two states |
| `DeltaRule.RunsNeverMoveApart` | tools/capture_qwen35_layers.py:186-196 | two runs over the same tokens from different states never move apart, over any number of steps |
| `DeltaRule.CombineIsBounded` | tools/capture_qwen35_layers.py:191-194 | what a vector reads out of a state is bounded by the product of their squared norms |
| `DeltaRule.OutputsStayClose` | tools/capture_qwen35_layers.py:186-196 | at every step the outputs of two runs over the same tokens differ by at most the distance of their starts times the squared norm of the query |
| `DeltaLayer.NormalizedIsShort` | tools/capture_qwen35_layers.py:155-156 | a normalized vector has squared norm at most one, whatever it was |
| `DeltaLayer.LogDecayIsNegative` | tools/capture_qwen35_layers.py:268 | the gate's logarithm is never positive |
| `DeltaLayer.RecurrentGatedDelta` | tools/capture_qwen35_layers.py:177-197 | the token loop over all heads computes, for each head, the run and the outputs that the recurrence defines, from the zero state |
| `DeltaLaws.StateStartsAtZero` | tools/capture_qwen35_layers.py:187 | before the first token every entry of every head's state is zero |
| `DeltaLaws.TokenIsRead` | tools/capture_qwen35_layers.py:189-193 | reading the state under any vector x one token later gives what x read before, decayed by exp(g), plus beta times the product of x and the normalized key times the value less what the decayed state read under that key |
| `DeltaLaws.KeyRecallsValue` | tools/capture_qwen35_layers.py:189-193 | under the token's own normalized key, of squared length c, the state reads beta c times the value plus (1 - beta c) exp(g) times what it read before |
| `DeltaLaws.OutputIsRead` | tools/capture_qwen35_layers.py:184-194 | a token's output is the state after it read under the normalized query over the root of the key width |
| `DeltaLaws.StatesIgnoreQueries` | tools/capture_qwen35_layers.py:186-196 | two batches that agree on keys, values and gates return the same states whatever their queries |
| `DeltaLaws.NormalizationIsExact` | tools/capture_qwen35_layers.py:155-156 | normalizing keeps the direction and leaves the squared length n / (n + 0.000001) |
| `DeltaLaws.DecayIsSigmoidGate` | tools/capture_qwen35_layers.py:268 | at rate one the decay is what a sigmoid gate of a + dt_bias leaves, and the log of the decay is proportional to the rate |
| `DeltaLayer.LayerTokensAreContractive` | tools/capture_qwen35_layers.py:267-268 | every token of the layer, with the gates it computes, meets the conditions for not expanding |
| `DeltaLayer.LayerNeverMovesApart` | tools/capture_qwen35_layers.py:186-196 | so no head of the layer ever drifts apart from another start |
| `DeltaLayer.LayerOutputsStayClose` | tools/capture_qwen35_layers.py:184-197 | with the layer's own normalization and scaling, outputs from two starts differ in squared norm by at most the starts' distance over the key width |
| `Rope.FrequenciesMultiply` | tools/capture_qwen35_layers.py:217 | two frequencies whose indices add up to half the rotary width multiply to the inverse of theta |
| `Rope.FrequenciesAreGeometric` | tools/capture_qwen35_layers.py:217 | frequency zero is one, and frequencies multiply where their indices add |
| `Rope.PairTurns` | tools/capture_qwen35_layers.py:223-232 | the covered dimensions turn in pairs (i, i + half) by the angle of frequency i |
| `Rope.PairTurnsByPower` | tools/capture_qwen35_layers.py:217-232 | covered dimensions i and i + half turn as a pair by the position over theta to the power 2i / rot |
| `Rope.TailPassesThrough` | tools/capture_qwen35_layers.py:229-232 | the dimensions past the tables' width are unchanged |
| `Rope.RelativePosition` | tools/capture_qwen35_layers.py:209-232 | the product of a query at p and a key at s is that of the query at p - s and the key unrotated, for every head width and rotary width |
| `Rope.RotationPreservesNorm` | tools/capture_qwen35_layers.py:223-232 | rotation keeps lengths |
| `Rope.UniformShiftIsInvisible` | tools/capture_qwen35_mtp.py:1091-1105 | shifting every position by the same amount changes no attention score |
| `VisionPatches.EncodeOfDecode` | tools/capture_qwen35_vision.py:224-231 | every patch shows a cell of the grid, and the cell determines the patch |
| `VisionPatches.DecodeOfEncode` | tools/capture_qwen35_vision.py:224-231 | every cell of the grid is shown by a patch of the frame |
| `VisionPatches.ConsecutivePatchesAreABlock` | tools/capture_qwen35_vision.py:224-231 | each run of merge*merge patches decodes to the cells of one block, and no other patch does |
| `VisionPatches.FrameIds` | tools/capture_qwen35_vision.py:233-241 | the nested loops enumerate what the division form decodes, for any sides; where merge does not divide one, exactly the uncovered entries stay unwritten |
| `VisionPatches.VisionPositionIds` | tools/capture_qwen35_vision.py:221-243 | frames repeat and entries follow each other in order, for any sides; entries that whole blocks do not reach stay unwritten |
| `VisionBatch.BatchCellAt` | tools/capture_qwen35_vision.py:221-243 | the id of patch q of frame f of entry i stands behind the patches of the entries before i, of the frames before f and of the frame before q, and is what one frame of the entry has at q |
| `VisionPatches.EveryEntryIsWritten` | tools/capture_qwen35_vision.py:233-241 | where merge divides both sides every entry holds what the division form decodes |
| `VisionPatches.SlotsAreABijection` | tools/capture_qwen35_vision.py:286-296 | every slot of a patch row belongs to exactly one component |
| `VisionPatches.FillPatch` | tools/capture_qwen35_vision.py:317-322 | the four inner loops fill the whole row of a patch and touch no other row |
| `VisionPatches.Patchify` | tools/capture_qwen35_vision.py:299-323 | raises exactly on a division by zero or where some patch decodes outside the grid, which is unless merge divides the width, and divides the height too or the grid is one block wide; otherwise every row of the result holds the pixels of the cell its patch shows |
| `VisionPatches.FirstCellBelow` | tools/capture_qwen35_vision.py:308-315 | on any other grid with whole blocks some patch shows the first cell below it |
| `VisionPatches.EveryPixelIsRecovered` | tools/capture_qwen35_vision.py:299-323 | every pixel the grid covers is recovered from every temporal slot through the slot function |
| `VisionTaps.SampleIsConvex` | tools/capture_qwen35_vision.py:264-282 | in both modes the four taps index inside the table and their weights are nonnegative and sum to one |
| `VisionTaps.TapsInterpolate` | tools/capture_qwen35_vision.py:269-278 | the weighted mean of two neighbours is the coordinate, pulled into the table, and the neighbours are the table positions next to it |
| `VisionTaps.AffineIsReproduced` | tools/capture_qwen35_vision.py:268-282 | an affine table is resampled to the affine function at the coordinate pulled into the table, in both modes |
| `VisionTaps.AlignedReproducesAffine` | tools/capture_qwen35_vision.py:270-271 | with aligned corners every affine function is reproduced exactly |
| `VisionTaps.EqualSizeIsIdentity` | tools/capture_qwen35_vision.py:268-282 | a resample to the table's own size is the table read, in both modes |
| `VisionTaps.AlignedSpansTheTable` | tools/capture_qwen35_vision.py:270-271 | with aligned corners the first coordinate is the table's first, the last its last, and the steps are equal |
| `VisionTaps.UnalignedIsSymmetric` | tools/capture_qwen35_vision.py:272-273 | otherwise the coordinates lie symmetrically about the middle of the table, its side over the target's size apart |
| `VisionTaps.PosEmbedTaps` | tools/capture_qwen35_vision.py:246-283 | the loops emit each entry's samples, once per frame, in patch order |
| `VisionBatch.BatchSampleAt` | tools/capture_qwen35_vision.py:246-283 | the taps of patch q of frame f of entry i stand at the same place and are those of the cell that division decodes q to |
| `VisionSegments.VisionCuSeqlens` | tools/capture_qwen35_vision.py:210-218 | the boundaries are the partial sums of one length per frame |
| `VisionSegments.RowsArePartitioned` | tools/capture_qwen35_vision.py:210-218 | every row below the last boundary lies in exactly one segment |
| `VisionSegments.SegmentAttention` | tools/capture_qwen35_vision.py:188-207 | the loop writes every segment's rows once and leaves rows past the last boundary zero |
| `VisionSegments.EachSegmentIsAttended` | tools/capture_qwen35_vision.py:201-207 | a segment's rows are what attention makes of exactly its own queries, keys and values in order, and rows past the last boundary are zero |
| `VisionSegments.SegmentsDoNotInterfere` | tools/capture_qwen35_vision.py:188-207 | changing rows outside a segment changes none of its outputs, for any attention function |
| `VisionSegments.PackingIsConcatenation` | tools/capture_qwen35_vision.py:188-218 | one call over any list of images and videos gives the concatenation of the separate calls |
| `VisionSegments.FramesAreSeparate` | tools/capture_qwen35_vision.py:195-198 | a video is segmented like as many single-frame images |
| `VisionSegments.BoundariesCountPatches` | tools/capture_qwen35_vision.py:210-243 | the last boundary is the number of patches that the same grids have position ids for |
| `SmartResize.Run` | tools/capture_qwen35_vision.py:326-340 | for positive sizes and budgets the result is a size of positive multiples of the factor, meets the minimum unless it was scaled down, stays within the maximum exactly under tests on the inputs that need no root, and has each side, branch by branch, where `EachSideIsExact` puts it |
| `SmartResize.EachSideIsExact` | tools/capture_qwen35_vision.py:326-340 | side by side and without a root: a picture over the maximum keeps the most tiles each scaled side has room for and at least one, one under the minimum takes the fewest that cover each scaled side, and in any other each side becomes the multiple of the factor closest to itself |
| `SmartResize.ClosestIsUnique` | tools/capture_qwen35_vision.py:330-331 | there is one closest multiple, the even one of two that are as close |
| `SmartResize.SidesAreMultiples` | tools/capture_qwen35_vision.py:326-340 | the result is always a size whose sides are positive multiples of the factor |
| `SmartResize.MinimumIsMet` | tools/capture_qwen35_vision.py:336-339 | the upscale and the default branch meet the minimum pixel count |
| `SmartResize.DownscaleRespectsMaximum` | tools/capture_qwen35_vision.py:332-335 | the downscale branch respects the maximum if and only if neither side is held at the factor, or one is and an integer comparison of the inputs leaves the other room |
| `SmartResize.MostTilesIsMost` | tools/capture_qwen35_vision.py:332-335 | the search finds the greatest number of tiles a scaled side has room for |
| `SmartResize.LeastTilesIsLeast` | tools/capture_qwen35_vision.py:336-339 | a search over whole numbers of tiles finds the least that covers a scaled side, by a test without a root |
| `SmartResize.UpscaleRespectsMaximum` | tools/capture_qwen35_vision.py:336-339 | the upscale branch gives those least numbers of tiles, and respects the maximum if and only if they do |
| `SmartResize.MaximumIsRespectedIff` | tools/capture_qwen35_vision.py:326-340 | over all three branches, exactly when the result stays within the maximum |
| `SmartResize.HeldSideOvershoots` | tools/capture_qwen35_vision.py:332-335 | a 17 by 4000 picture at factor 32 and 65536 pixels overshoots the maximum |
| `SmartResize.RaisedStripOvershoots` | tools/capture_qwen35_vision.py:336-339 | a 1 by 2000 picture at factor 32, scaled up to 3136 pixels, overshoots a maximum of 65536 |
| `SourceKey.HashOf` | crates/cuda/src/nvrtc.rs:157-169 | eating source, architecture and version in turn is one fold over their concatenation |
| `SourceKey.XorIsBitByBit` | crates/cuda/src/nvrtc.rs:161 | a bit of the exclusive or is set exactly where the two bits differ |
| `SourceKey.SmallestHashes` | crates/cuda/src/nvrtc.rs:158-164 | the hash of nothing is the offset and the hash of one letter is the stated word |
| `SourceKey.OneByteEditChangesHash` | crates/cuda/src/nvrtc.rs:108-113 | changing one byte of a source always changes its key |
| `SourceKey.PathIsInjective` | crates/cuda/src/nvrtc.rs:111-113 | on one architecture a file name determines the label and the key |
| `SourceKey.HexDigitAt` | crates/cuda/src/nvrtc.rs:111-113 | the key is printed in base sixteen, digit by digit |
| `KernelCache.EditedSourceIsFiledElsewhere` | crates/cuda/src/nvrtc.rs:108-113 | a source edited in one byte is cached under another file, whatever the labels |
| `KernelCache.NewVersionIsFiledElsewhere` | crates/cuda/src/nvrtc.rs:157-169 | a release that changes one byte of the version reads none of the earlier release's files |
| `KernelCache.StepKeepsRight` | crates/cuda/src/nvrtc.rs:63-141 | every step of a call, failing or not, keeps the three levels and what the thread carries right |
| `KernelCache.EveryInterleavingIsRight` | crates/cuda/src/nvrtc.rs:63-141 | under every interleaving of any number of threads, with failures and foreign writes, every function, module, file and returned kernel is what compiling and loading the label's source would give |
| `KernelCache.FreshProcessIsRight` | crates/cuda/src/nvrtc.rs:45-57 | a process that starts on a sound disk starts right |
| `KernelCache.CallAloneIsGot` | crates/cuda/src/nvrtc.rs:63-141 | a call that nothing interleaves with is the run of its own steps |
| `KernelCalls.Cache.LoadModule` | crates/cuda/src/nvrtc.rs:103-141 | the new state and the module are those of the specification, for every combination of failures, with the file name made from the hash that is computed byte by byte |
| `KernelCalls.Cache.Get` | crates/cuda/src/nvrtc.rs:63-101 | the same for a whole call |
| `KernelCalls.CallSucceedsIff` | crates/cuda/src/nvrtc.rs:63-141 | a call succeeds exactly when its function is cached, or its module is cached or can be read or compiled and loaded, and holds the function |
| `KernelCalls.SuccessIsRemembered` | crates/cuda/src/nvrtc.rs:63-101 | after a success the same request gives the same kernel and changes nothing, whatever fails |
| `KernelCalls.CompiledTextIsFiled` | crates/cuda/src/nvrtc.rs:115-133 | compiled text is on disk for the next process, which gets its kernel even if it cannot compile or write |
| `KernelCalls.EachModuleIsLoadedOnce` | crates/cuda/src/nvrtc.rs:103-141 | in a sequential run, whatever fails, each label's module is loaded successfully at most once |
| `KernelOnce.AdvanceKeepsOnce` | crates/cuda/src/nvrtc.rs:63-141 | a step of any thread, failing or not, keeps the invariant that no label is loaded twice |
| `KernelOnce.EachLabelIsLoadedOnce` | crates/cuda/src/nvrtc.rs:63-141 | if no call begins for a label that another thread is busy with, unless the label's module is in the map, each label is loaded at most once under every interleaving |
| `KernelOnce.FreshProcessIsOnce` | crates/cuda/src/nvrtc.rs:45-57 | a process starts in the invariant, whatever is on the disk |
| `KernelOnce.TwoThreadsMayLoadTwice` | crates/cuda/src/nvrtc.rs:103-141 | two threads on the way to one uncached label may both load it although nothing fails, from any two places on that way, with the file on the disk or not |
| `KernelOnce.OverlapMayLoadTwice` | crates/cuda/src/nvrtc.rs:103-141 | the condition is exact: any call that begins against it can lead to a second load |
| `KernelCalls.AnswerIsRightIff` | crates/cuda/src/nvrtc.rs:59-62 | a successful call answers with the caller's kernel exactly when its label is new or was first loaded from a source that compiles to the same text |
| `KernelCalls.EveryAnswerIsRightIff` | crates/cuda/src/nvrtc.rs:59-62 | after any run of calls, failures after loading included, a successful call answers with its own kernel exactly when its label was never loaded or was first loaded from a source that compiles to the same text |
| `KernelCalls.TwoLabelsDoNotShare` | crates/cuda/src/nvrtc.rs:59-62 | two labels with one source are loaded twice and have two files |
| `ForwardReading.Reader.WalkAssignments` | tools/capture_qwen35_mtp.py:188-217 | the walk that updates environment and list in place computes the specified reading |
| `ForwardDraft.DescribedInOrder` | tools/capture_qwen35_mtp.py:164 | arguments and elements are described one by one, in order |
| `ForwardDraft.ItemsInOrder` | tools/capture_qwen35_mtp.py:204-207 | the names of a tuple target hold the items of the value, counted from zero |
| `ForwardDraft.DraftIsRead` | tools/capture_qwen35_mtp.py:105-107 | a draft head that normalizes the embedding and the hidden state, joins them, projects and normalizes again is read as feeding the projection the two norms of their own inputs, the embedding first, along dimension -1, and as returning the first result of the final norm |
| `ForwardMeaning.DescribeMeans` | tools/capture_qwen35_mtp.py:156-185 | the descriptor of an expression that reads no stale name and uses nothing a descriptor leaves out, evaluated over the starting values, is the value of the expression; callees of any shape included |
| `ForwardMeaning.ReadingIsTheRun` | tools/capture_qwen35_mtp.py:188-217 | statements read in the order they run: every name that a second walk over the syntax does not mark stale holds what its final descriptor means, and the list keeps the descriptor of every assignment in order, each clean one meaning the value assigned |
| `ForwardRuns.UnmarkedIsRightOnEveryRun` | tools/capture_qwen35_mtp.py:188-217 | whatever branches are taken and however often loops turn, a name that neither passed-over syntax nor a block may change, directly or through what it reads, holds what its final descriptor means |
| `ForwardRuns.OnceReadsAlike` | tools/capture_qwen35_mtp.py:204-211 | the run that enters every block once reads as the body is read |
| `ForwardRuns.OnceCompletes` | tools/capture_qwen35_mtp.py:204-211 | and it is one of the runs of the body |
| `ForwardExactness.MarkedIsWrong` | tools/capture_qwen35_mtp.py:188-217 | the marks are exact for statements read in the order they run: when values record how they came about, a name or a listed descriptor is right if and only if it is unmarked |
| `ForwardExactness.RightExactlyWhereRunReadsAlike` | tools/capture_qwen35_mtp.py:188-217 | for any body and any run of it, of a name unmarked along the run the body's reading is right if and only if the run reads it alike |
| `ForwardExactness.BranchNotTaken` | tools/capture_qwen35_mtp.py:204-211 | after `h = a` and `if c: h = b`, the branch not taken, the walk reads `b` and the name holds `a` |
| `ForwardExactness.LoopTakenTwice` | tools/capture_qwen35_mtp.py:204-211 | for `for x in xs: h = f(h)` in two turns the walk reads `f(h)` and the name holds `f(f(h))` |
| `ForwardExactness.UncleanDiffers` | tools/capture_qwen35_mtp.py:156-185 | an expression that reads a stale name, another receiver, another keyword or an index evaluates to something else than its descriptor means |
| `ForwardExactness.AugmentedAssignmentIsLost` | tools/capture_qwen35_mtp.py:198-211 | after `h = f(a)` and `h += g(b)` the walk still reads `f(a)` |
| `ForwardMeaning.StraightLineIsClean` | tools/capture_qwen35_mtp.py:188-217 | straight-line code over names, constants, calls, `cat`, negation, tuples and attributes of fixed owners leaves no name stale and no assignment unclean |
| `ForwardRuns.LastReturnIsRead` | tools/capture_qwen35_mtp.py:212-216 | when the early exits in blocks are not taken, whatever else control does, the kept descriptor is what the last return gives back, if that reads no name a block may change and is clean |
| `ForwardRuns.EarlyReturnIsLost` | tools/capture_qwen35_mtp.py:212-216 | whichever return a run leaves by, in a block or outside, the walk keeps the last one as it reads where it stands; a clean one that reads alike along the run is right all the same |
| `ForwardExactness.ReturnsAgreeExactly` | tools/capture_qwen35_mtp.py:212-216 | of a return taken that is clean, the kept descriptor is right if and only if the two read alike; of one that reads alike, if and only if it is clean |
| `ForwardExactness.UncleanMayAgree` | tools/capture_qwen35_mtp.py:170-181 | one that is neither may agree by accident: `cat(x)` without a bracketed list and `c(x)` after `c = cat` |
| `ForwardExactness.RecordIsInjective` | tools/capture_qwen35_mtp.py:156-185 | descriptors that mean the same when values record how they came about are the same descriptor |
| `DeviceWindows.SliceIsClampedRange` | crates/cpu/src/buffer.rs:222-235 | a slice's elements are the window's from the start of the range to its end or the window's, and none when the start lies past it |
| `DeviceWindows.SliceHoldsExactly` | crates/cpu/src/buffer.rs:222-235 | an element of a window is in a slice exactly when neither bound of the range, inclusive or exclusive, shuts it out |
| `DeviceWindows.TransmuteKeepsBytes` | crates/cpu/src/buffer.rs:147-169 | a retyped window covers the first of the same bytes |
| `DeviceWindows.MisfitIsRefused` | crates/cpu/src/buffer.rs:147-169 | a retype is refused exactly when it is too long for the window's bytes or the window starts between two elements of the new size |
| `DeviceWindows.ChainStaysWithin` | crates/cpu/src/buffer.rs:147-220 | through any chain of slices, splits and retypings a nonempty window stays inside the first one's bytes |
| `DeviceWindows.ChainReadsAnExcerpt` | crates/cpu/src/buffer.rs:147-220 | and reads a run of its contents |
| `DeviceWindows.MutableSplitCovers` | crates/cpu/src/buffer.rs:213-219 | a mutable split is disjoint and covers the window, wherever the middle is asked to be |
| `DeviceWindows.BufferSplitCovers` | crates/cpu/src/buffer.rs:85-95 | so is a buffer's split, which clamps nothing but the end |
| `DeviceWindows.TransmuteBufferStaysInAllocation` | crates/cpu/src/buffer.rs:101-110 | a retyped buffer stays inside the allocation, and inside the buffer except in one named case |
| `DeviceWindows.MemcpyDtod` | crates/cpu/src/buffer.rs:307-320 | the destination becomes the source's old contents and every other byte stays, even when the windows overlap; a copy that does not fit changes nothing |
| `DeviceWindows.CopyInto` | crates/cpu/src/buffer.rs:341-350 | a host copy fills the head of the window and nothing else, or changes nothing |
| `DeviceWindows.MemcpyDtoh` | crates/cpu/src/buffer.rs:291-301 | a read back delivers the window's contents into the head of the host slice, or changes nothing |
| `DeviceWindows.MemsetZeros` | crates/cpu/src/buffer.rs:326-333 | zeroes the window and nothing else |
| `DeviceWindows.DisjointWindowsDoNotInterfere` | crates/cpu/src/buffer.rs:89-95 | a write through one half of a split leaves what the other half reads |
| `PagedKv.FlatIsTable` | crates/kernels/src/flash_attn2.rs:99-126 | flat addressing from the first slot hits the table's element for every head, position and dimension, exactly when the slots are consecutive |
| `PagedKv.TableStrides` | crates/kernels/src/flash_attn2.rs:267-271 | the pool starts at head, slot and dimension zero; the next dimension is one element further, the next slot one row, the next head one run of slots |
| `PagedKv.TestIsRightIff` | crates/kernels/src/flash_attn2.rs:125 | of any 32-bit numbers, they are consecutive if and only if they pass the test and the first plus their count stays within the word |
| `PagedKv.SlotsNeverWrap` | crates/kernels/src/flash_attn2.rs:125 | numbers that are not negative never pass the test by wrapping around |
| `PagedKv.WrapIsMissed` | crates/kernels/src/flash_attn2.rs:125 | a table that goes from the greatest 32-bit number to the least passes the test |
| `PagedKv.LaunchIsSound` | crates/kernels/src/flash_attn2.rs:174-203 | whether windows past the table are cut short or abort, a launch whose sums do not wrap goes ahead exactly when the run's first slot is in the table and flat addressing is sound for every entry the table has; any launch starts at the byte of its first element |
| `PagedKv.FlatStaysInPool` | crates/kernels/src/flash_attn2.rs:267-274 | every element a sound launch reads lies in the pool |
| `PagedKv.Scratch.EnsureCapacity` | crates/kernels/src/flash_attn2.rs:80-97 | each buffer is reused when large enough and otherwise replaced by one of exactly the needed size; a failed allocation leaves the later buffers as they were |
| `PagedKv.BuffersOnlyGrow` | crates/kernels/src/flash_attn2.rs:71-79 | over any requests a buffer never shrinks, ends as large as the largest, and is allocated at most once if the first request is the largest |

## Left out

- Rounding inside f32 and f16 arithmetic, NaN and infinities: arithmetic is over exact reals, and the half-precision rounding is an uninterpreted function.
- Wrap-around of machine words: sizes are natural numbers; where GGUF parsing checks for overflow the check is modelled with its bound, elsewhere (`e + 1` in a range's end, products of row and column counts in shard reads) an overflow is not.
- Stack depth: the recursion over nested GGUF arrays is shown to terminate, not to fit a stack.
- UTF-8: a GGUF string is bytes put through an uninterpreted replacement that keeps what a writer may print.
- Memory mapping, file I/O, display formatting and the typed metadata getters of the GGUF crate.
- Torn files: a write to the kernel cache's directory happens at once or not at all, and a read sees one or the other.
- Other kernel-cache steps: log lines, timing and the shared-memory carve-out hint have no effect on the three levels.
- KernelCache.Step: a failure is an input, so a source that never compiles is one whose compile step always fails.
- DeltaLayer.RecurrentGatedDelta: reads queries and keys per value head; the repetition of key heads that comes before it is not modelled, nor are the convolution, the gated norm and the projections around it.
- Rope.UniformShiftIsInvisible: states the scores of one pass; the softmax and the values that follow depend on nothing else that positions enter.
- Rope.At: positions are integers, and the tables are wide enough for the head; a head narrower than its table makes the original raise.
- VisionPatches.VisionPositionIds: asks for a positive merge, where the original divides by zero otherwise; an unwritten entry is `None` where the original returns whatever its memory held, and joining no entries at all, which the original cannot, gives none.
- VisionTaps.PosEmbedTaps: asks for a table with at least one row, and that an entry with patches have at least one whole block in a row, where the original divides by zero otherwise.
- VisionSegments.SegmentAttention: what attention computes inside a segment is a parameter that keeps lengths; boundaries are nondecreasing from zero, as partial sums are.
- The rotary embedding of the vision tower, the split of its fused projection and the merger: elementwise formulas that would add only easy members.
- SmartResize.Run: sizes and the factor are natural numbers; the original would also accept negative ones.
- ForwardMeaning.ReadingIsTheRun: operations are functions of their operands, so that a call changes no name unless the program says so; the names that passed-over syntax changes are part of the program.
- ForwardRuns.Completes: a run may pass a block by any of its simple statements in any order and number, which is more than control can do; a run that ends in an exception has no result and is not described.
- ForwardReading.Describe: yields a term where the original prints a string, so that two different terms never collide as their printed forms might; `cat` without an argument, on which the original raises, is excluded.
- DeviceWindows.MemcpyDtod: takes the source bytes before it writes, as a memory move behaves; how the move orders its stores is not modelled.
- DeviceWindows.TransmuteBufferStaysInAllocation: speaks of owned allocations; a mapped file is never empty.
- PagedKv.LaunchIsSound: what the device library does with a window past the end of a buffer is a parameter, since its source is not part of this model; the 32-bit sum wraps around, where a build with overflow checks aborts.
- PagedKv.Scratch.EnsureCapacity: buffers are arrays of numbers; only their identity and size matter here.
- AwqLayout.AnyInterleavingPacks: a worker's stores are single bytes in the order its loops make them; the scope's join is that every worker has run to its end.
- The scheduler, the slot pool, the sampler, the tokenizer and the speculative acceptance rule: their sources are not part of this model.
- CUDA and Metal kernels, NCCL, the FlashAttention launch itself, NVRTC and the driver: foreign code.
- The block-scaled FP8 dequantization and the RMS norms of the capture scripts: elementwise formulas that would add only easy members.
