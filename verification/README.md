# A verified model of the TensorFlow C API, stream executor and Go binding cores

This project models, in Dafny, the parts of the repository whose correctness is
decided by arithmetic, by table invariants, or by the order in which threads take
turns, and proves what those parts are for.

| module | what it models |
|---|---|
| `Layout` | dimensions, strides and addresses of a `BatchDescriptor` in the four data layouts; depth concatenation |
| `Occupancy` | occupancy of a device core and the stepping search for a register budget |
| `Bytes`, `StringTensor` | varints, words in either byte order, and the string tensor format of the C API |
| `AttrBuffers` | metadata and getters of list-valued attributes |
| `GraphTable` | the node table of a graph, its name index, its iteration, and the stretches of nodes sent to sessions |
| `GraphLife` | when a shared graph is freed, over every interleaving |
| `SessionExtend` | how a growing graph is shipped to its sessions, over every interleaving |
| `CApiGraph` | the mutable graph and session objects; each method is tied to a step of the three modules above |
| `GoSession` | the mutex and wait group protocol of Run and Close for any number of goroutines |
| `GoSystem` | Go sessions composed with the reference count of the C graph and the graph's finalizer, which may run while a session is being created |
| `TempMemory` | temporary device memory: generation-stamped records over an allocator that reuses addresses |
| `TensorCodec` | nested Go slices to tensor bytes and back |
| `PluginRegistry` | factories per platform, generic factories and defaults |
| `Partition` | the spread of a cluster's slaves over zones |
| `MachineInts`, `Arithmetic`, `Sequences`, `Options` | 32- and 64-bit limits and narrowing; products; slices; optional values |

Code that changes state step by step is a method with a loop or a class with
mutable fields, proved equal to a function on values; the main results are lemmas
about those functions. Protocols are transition systems: one step is one region
that no other thread can interrupt, and the theorems range over all legal
sequences of steps.

Seven of the results say exactly when the code does what it is meant to do,
because it does not always:

* the register search skips values and narrows its step to an `int`; on kernels that
  fit 64 bits, what it returns is right for every device with a register limit that
  fits an `int`, and every target, exactly when the step is exact
  (`Occupancy.AlwaysExactIffExactStep`); for a warp size and a granularity below
  2^31 - 1 that is when the warp size divides the granularity or the step is one
  register (`Occupancy.AlwaysExactIffGoodStep`);
* the occupancy is computed in 64 bits; it is exact on every core exactly when one
  block demands less than 2^64 of each resource, or a wrapped demand is exactly
  2^64 - 1 (`Occupancy.ExactForAllLimitsIff`);
* depth concatenation adds feature maps in a 32-bit `int`; elements are conserved
  exactly when the sum fits, or there are none (`Layout.ConcatConservesIff`);
* finalizing a temporary does not look at the generation it is given; no temporary
  is taken from its handle exactly when no handle is destroyed after its address
  went to another temporary still in use (`TempMemory.AlwaysHonestIffAllHarmless`);
* a Go value is checked for equal lengths level by level and for its total size
  only; of the values accepted exactly the rectangular ones come back unchanged
  (`TensorCodec.RoundTripIffRectangular`);
* tensor memory is seen through an array type of 2^30 bytes, and the C shape type
  aborts beyond 255 dimensions or when the product of the first dimensions leaves 0
  to 2^40, even if a later dimension is zero; a rectangular value of supported
  elements becomes a tensor exactly when neither happens
  (`TensorCodec.RectangularAcceptedIff`);
* a Go session does not keep its Go graph reachable while it is being created; no
  step goes to a freed graph exactly when every session is counted before the
  graph's finalizer has run, or while another session is open
  (`GoSystem.AllSafeIffAllTimely`).

The documentation of `NewTensor` (go/tensor.go:64-66) demands slices of equal
length; the code accepts some others, and the model follows the code.

## Model

| member | source | states |
|---|---|---|
| `Layout.PartsOfArranged` | TensorFlowOnSpark/tensorflow/tensorflow/stream_executor/dnn.cc:127-157 | the indices given for a layout find batch, depth and spatial entries exactly where that layout puts them |
| `Layout.PlacesOfArranged` | TensorFlowOnSpark/tensorflow/tensorflow/stream_executor/dnn.cc:127-157 | where batch, depth and the spatial stretch stand in each of the four layouts, written out |
| `Layout.ReorderSame` | TensorFlowOnSpark/tensorflow/tensorflow/stream_executor/dnn.cc:159-161 | reordering to the same layout is the identity on every vector of length at least two |
| `Layout.ReorderCompose` | TensorFlowOnSpark/tensorflow/tensorflow/stream_executor/dnn.cc:127-181 | reordering a to b and then b to c is reordering a to c; a to b to a gives the vector back |
| `Layout.PartsOfReordered` | TensorFlowOnSpark/tensorflow/tensorflow/stream_executor/dnn.cc:159-181 | batch, depth and the spatial stretch of the reordered vector are those of the original |
| `Layout.ReorderPermutes` | TensorFlowOnSpark/tensorflow/tensorflow/stream_executor/dnn.cc:159-181 | reordering neither loses nor repeats an entry |
| `Layout.ReorderDims` | TensorFlowOnSpark/tensorflow/tensorflow/stream_executor/dnn.cc:159-181 | the loop over two running spatial indices produces the vector arranged for the target layout |
| `Layout.CopyParts` | TensorFlowOnSpark/tensorflow/tensorflow/stream_executor/dnn.cc:171-180 | the copying loop moves batch, depth and the whole spatial stretch between any disjoint indices |
| `Layout.ReorderKeeps` | TensorFlowOnSpark/tensorflow/tensorflow/stream_executor/dnn.cc:159-181 | dot products and products of entries do not change when operands are reordered alike |
| `Layout.FullDimsArranged` | TensorFlowOnSpark/tensorflow/tensorflow/stream_executor/dnn.cc:197-203 | the dimensions read in any layout are the descriptor's own, arranged for it, and their product is the element count |
| `Layout.DenseStrideAt` | TensorFlowOnSpark/tensorflow/tensorflow/stream_executor/dnn.cc:208-212 | a dense stride is the product of the later dimensions |
| `Layout.StoredStrideAt` | TensorFlowOnSpark/tensorflow/tensorflow/stream_executor/dnn.cc:205-214 | the strides in the stored layout are the products of the later dimensions of the arranged descriptor; the count is batch times depth times the spatial sizes |
| `Layout.UnravelOfAddress` | TensorFlowOnSpark/tensorflow/tensorflow/stream_executor/dnn.cc:205-214 | an in-bounds index has an address below the number of elements and is recovered from it, for any number of dimensions |
| `Layout.AddressOfUnravel` | TensorFlowOnSpark/tensorflow/tensorflow/stream_executor/dnn.cc:205-214 | every address below the number of elements is that of one in-bounds index |
| `Layout.AddressLayoutIndependent` | TensorFlowOnSpark/tensorflow/tensorflow/stream_executor/dnn.cc:205-214 | an element has one address, whichever layout its index and the strides are both written in |
| `Layout.AddressBijection` | TensorFlowOnSpark/tensorflow/tensorflow/stream_executor/dnn.cc:197-288 | in any layout, the dot product with the strides is a bijection from in-bounds indices onto the addresses below the element count, with an explicit two-sided inverse |
| `Layout.StridesFit` | TensorFlowOnSpark/tensorflow/tensorflow/stream_executor/dnn.cc:205-214 | for positive dimensions every stride is positive and at most the element count, so no stride overflows unless the count does |
| `Layout.ConcatConservesIff` | TensorFlowOnSpark/tensorflow/tensorflow/stream_executor/dnn.cc:299-311 | for inputs that share batch count and spatial sizes, the concatenated element count is the sum over the inputs exactly when the feature maps add up to a 32-bit int or a feature map of the batch is empty |
| `Layout.ConcatLosesElements` | TensorFlowOnSpark/tensorflow/tensorflow/stream_executor/dnn.cc:304-309 | two inputs of 2^30 feature maps give a descriptor with a negative element count |
| `Layout.BatchDescriptor.constructor` | TensorFlowOnSpark/tensorflow/tensorflow/stream_executor/dnn.cc:185-195 | a new descriptor is empty, has two spatial dimensions unless told otherwise, and the layout kYXDepthBatch |
| `Layout.BatchDescriptor.CloneFrom` | TensorFlowOnSpark/tensorflow/tensorflow/stream_executor/dnn.cc:216-225 | a clone has the value of the original, which may be the descriptor itself |
| `Layout.BatchDescriptor.FullDims` | TensorFlowOnSpark/tensorflow/tensorflow/stream_executor/dnn.cc:197-203 | the filled and reordered vector holds the dimensions as the target layout arranges them |
| `Layout.BatchDescriptor.FullStrides` | TensorFlowOnSpark/tensorflow/tensorflow/stream_executor/dnn.cc:205-214 | the strides are those of a dense array in the stored layout, reordered for the target |
| `Layout.BatchDescriptor.PhysicalStrides` | TensorFlowOnSpark/tensorflow/tensorflow/stream_executor/dnn.cc:208-212 | the downward loop gives every dimension the product of those after it |
| `Layout.BatchDescriptor.NodesPerFeatureMap` | TensorFlowOnSpark/tensorflow/tensorflow/stream_executor/dnn.cc:274-280 | the loop computes the product of the spatial sizes |
| `Layout.BatchDescriptor.ElementCount` | TensorFlowOnSpark/tensorflow/tensorflow/stream_executor/dnn.cc:286-288 | the count equals the product of the full dimensions |
| `Layout.BatchDescriptor.AddFeatureMaps` | TensorFlowOnSpark/tensorflow/tensorflow/stream_executor/dnn.cc:304-307 | the running 32-bit sum is the narrowed sum of the feature maps |
| `Layout.SumsOneMore` | TensorFlowOnSpark/tensorflow/tensorflow/stream_executor/dnn.cc:304-307 | the two sums start at zero, and each further input adds its feature maps and its elements |
| `Layout.BatchDescriptor.DepthConcatenateOutputDescriptor` | TensorFlowOnSpark/tensorflow/tensorflow/stream_executor/dnn.cc:299-311 | batch count, spatial sizes, ranges and layout of the first input with the feature maps of all inputs added up as an int, or an empty descriptor for no inputs; inputs are left alone |
| `Occupancy.OccupancyIsMaximal` | TensorFlowOnSpark/tensorflow/tensorflow/stream_executor/device_description.cc:163-213 | a block demands the least multiple of the warp size that is at least its threads, and the least multiples of the granularities for warps, registers of a warp and shared memory: n such blocks keep the block, register, shared memory and thread limits of the core if and only if n is at most the computed occupancy |
| `Occupancy.DemandsOfBlock` | TensorFlowOnSpark/tensorflow/tensorflow/stream_executor/device_description.cc:185-209 | the computed demands are those least multiples, and registers per block are the warps allocated times the registers of a warp |
| `Occupancy.OccupancyAntitone` | TensorFlowOnSpark/tensorflow/tensorflow/stream_executor/device_description.cc:163-213 | more registers per thread or more shared memory per block never raise the occupancy |
| `Occupancy.OccupancyWithoutWrap` | TensorFlowOnSpark/tensorflow/tensorflow/stream_executor/device_description.cc:163-213 | the computation as it runs, every product wrapped at 64 bits and zero divisors trapping, gives the exact occupancy when what one block demands of each resource is below 2^64 |
| `Occupancy.WrappedDemands` | TensorFlowOnSpark/tensorflow/tensorflow/stream_executor/device_description.cc:185-209 | the demands as computed in 64 bits: threads and registers of a warp wrapped before they are rounded up, and every result wrapped again |
| `Occupancy.CodeOccupancy` | TensorFlowOnSpark/tensorflow/tensorflow/stream_executor/device_description.cc:163-213 | the computation as it runs: zero for an unset field or too many registers, a trap for a zero divisor, else the largest number of blocks that leaves room by the wrapped demands |
| `Occupancy.ExactForAllLimitsIff` | TensorFlowOnSpark/tensorflow/tensorflow/stream_executor/device_description.cc:181-213 | for a kernel, allocation parameters and register count: the wrapping computation is exact on every core, whatever its initialized 64-bit limits, if and only if one block demands less than 2^64 of each resource, or a wrapped register or shared memory demand is exactly 2^64 - 1 and so exceeds every initialized limit |
| `Occupancy.StarvedWithoutFitting` | TensorFlowOnSpark/tensorflow/tensorflow/stream_executor/device_description.cc:194-206 | that last case occurs although a demand wraps: registers come to 2^64 - 1 and shared memory to 2^64 |
| `Occupancy.WrapHidesDemand` | TensorFlowOnSpark/tensorflow/tensorflow/stream_executor/device_description.cc:201-206 | an instance of the failure: a shared memory request that rounds up to 2^64 counts as none, and a block that does not fit is reported to fit |
| `Occupancy.CalculateRegisterLimitForTargetOccupancy` | TensorFlowOnSpark/tensorflow/tensorflow/stream_executor/device_description.cc:215-232 | for every device and kernel, the loop over the int variable, with its narrowing, early return, wrapping and traps, is the recursive search |
| `Occupancy.FirstCandidateMeaning` | TensorFlowOnSpark/tensorflow/tensorflow/stream_executor/device_description.cc:223 | the search starts at the register limit narrowed to an int, and not at all when that is negative |
| `Occupancy.RegStepMeaning` | TensorFlowOnSpark/tensorflow/tensorflow/stream_executor/device_description.cc:221-222 | the step is the quotient of granularity and warp size narrowed to an int, and a negative one is widened again with its sign |
| `Occupancy.SearchMeaning` | TensorFlowOnSpark/tensorflow/tensorflow/stream_executor/device_description.cc:215-232 | for every device, with a good step or not: the candidates are the first one and the multiples of the step below it; the answer is the largest candidate that does not miss the target, zero when all miss it, or a trap or division by zero exactly where one comes first |
| `Occupancy.SearchWithoutWrap` | TensorFlowOnSpark/tensorflow/tensorflow/stream_executor/device_description.cc:215-232 | when a block at the first candidate fits 64 bits, the search as it runs is the search in exact arithmetic, at every candidate |
| `Occupancy.ClosedFormOfCode` | TensorFlowOnSpark/tensorflow/tensorflow/stream_executor/device_description.cc:218-232 | under that condition, and when the warp size divides the granularity, the value the code returns is the closed form |
| `Occupancy.AllocationByStep` | TensorFlowOnSpark/tensorflow/tensorflow/stream_executor/device_description.cc:194-196 | when the warp size divides the granularity, registers are allocated by whole steps |
| `Occupancy.SkippedAllocation` | TensorFlowOnSpark/tensorflow/tensorflow/stream_executor/device_description.cc:223-224 | while no allocation class is passed over, a candidate allocates the same registers as every value down to the next one, for a narrowed step too |
| `Occupancy.SkippedFail` | TensorFlowOnSpark/tensorflow/tensorflow/stream_executor/device_description.cc:223-229 | so a candidate that misses the target rules out every value the step jumps over |
| `Occupancy.SearchFromExact` | TensorFlowOnSpark/tensorflow/tensorflow/stream_executor/device_description.cc:223-231 | from any start below which no allocation class is passed over, the stepping loop finds the largest value that meets the target, or 0 when none does, although it skips candidates |
| `Occupancy.SearchExact` | TensorFlowOnSpark/tensorflow/tensorflow/stream_executor/device_description.cc:215-232 | the whole search then returns the largest value up to its first candidate that meets the target |
| `Occupancy.FittingSearchExact` | TensorFlowOnSpark/tensorflow/tensorflow/stream_executor/device_description.cc:215-232 | so does the wrapping search on a device with an exact step, for every kernel that fits 64 bits |
| `Occupancy.ExactIffLimitIsInt` | TensorFlowOnSpark/tensorflow/tensorflow/stream_executor/device_description.cc:223-224 | for a device with an exact step, what the code returns is the largest value for every kernel that fits 64 bits and every target exactly when the register limit fits an int, or no kernel fits at all |
| `Occupancy.ClosedForm` | TensorFlowOnSpark/tensorflow/tensorflow/stream_executor/device_description.cc:218-232 | the closed form that the comment asks for: the loop equals the minimum of its first candidate and step times floor(registers / (target * warps * granularity)), or 0 when another limit misses the target |
| `Occupancy.BadStepMisses` | TensorFlowOnSpark/tensorflow/tensorflow/stream_executor/device_description.cc:221-232 | for every 64-bit warp size and granularity without an exact step, a device of 64-bit values and a kernel that fits 64 bits on which the code divides by zero or returns too small a value |
| `Occupancy.AlwaysExactIffExactStep` | TensorFlowOnSpark/tensorflow/tensorflow/stream_executor/device_description.cc:215-232 | what the code returns, wrapping and narrowing included, is right for all 64-bit devices of a 64-bit warp size and granularity, all kernels that fit 64 bits and all targets exactly when the step is exact: zero only if no block fits, not narrowed to zero, and without a remainder that makes a reachable candidate skip a value |
| `Occupancy.AlwaysExactIffGoodStep` | TensorFlowOnSpark/tensorflow/tensorflow/stream_executor/device_description.cc:215-232 | for warp sizes and granularities below 2^31 - 1 that is exactly when the warp size divides the granularity or the step is one |
| `Bytes.WordRoundTrip` | TensorFlowOnSpark/tensorflow/tensorflow/c/c_api.cc:392-393 | a word is read back as written, in either byte order |
| `Bytes.WordByteAt` | TensorFlowOnSpark/tensorflow/tensorflow/c/c_api.cc:392-393 | the byte of weight 256^i is at place i in little-endian order and at the i-th place from the end in big-endian order |
| `Bytes.WordOfBytes` | TensorFlowOnSpark/tensorflow/tensorflow/c/c_api.cc:392-393 | writing the value of any bytes gives those bytes again |
| `Bytes.VarintRoundTrip` | TensorFlowOnSpark/tensorflow/tensorflow/c/c_api.cc:240-241 | a 64-bit value written by the base-128 rule of the Protocol Buffers Encoding guide is read back, and reading stops where it ends, whatever follows |
| `Bytes.VarintByteAt` | TensorFlowOnSpark/tensorflow/tensorflow/c/c_api.cc:233 | byte i holds the i-th group of seven bits, and the continuation bit exactly when another byte follows |
| `Bytes.VarintIsShortest` | TensorFlowOnSpark/tensorflow/tensorflow/c/c_api.cc:223-224 | no shorter sequence of groups holds the value |
| `Bytes.ReadVarintMeaning` | TensorFlowOnSpark/tensorflow/tensorflow/c/c_api.cc:240-246 | on any bytes: the value is that of the groups up to the first byte without continuation bit, modulo 2^64, if it is among the first ten; otherwise none |
| `StringTensor.StringEncode` | TensorFlowOnSpark/tensorflow/tensorflow/c/c_api.cc:220-236 | success exactly when the encoding fits; then exactly those bytes are written and nothing else; on error nothing is written |
| `StringTensor.StringRoundTrip` | TensorFlowOnSpark/tensorflow/tensorflow/c/c_api.cc:238-256 | decoding finds the encoded string and its exact length, whatever bytes follow |
| `StringTensor.PartsOfEncodedString` | TensorFlowOnSpark/tensorflow/tensorflow/c/c_api.cc:233-234 | an encoded string is its length as a varint, then its bytes |
| `StringTensor.OffsetsIncrease` | TensorFlowOnSpark/tensorflow/tensorflow/c/c_api.cc:429-438 | offsets start at zero, grow by the encoded size of each string, and so increase strictly |
| `StringTensor.BufferAt` | TensorFlowOnSpark/tensorflow/tensorflow/c/c_api.cc:424-438 | in the encoded buffer, the i-th word is the offset of string i, and at that offset behind the table stands its encoding |
| `StringTensor.EncodedTotal` | TensorFlowOnSpark/tensorflow/tensorflow/c/c_api.cc:413-420 | the sizing pass computes the number of bytes of the encoding |
| `StringTensor.EncodeElement` | TensorFlowOnSpark/tensorflow/tensorflow/c/c_api.cc:429-438 | one turn stores the offset behind the table so far and the string behind the data so far, and advances the pointers by just that |
| `StringTensor.EncodeStrings` | TensorFlowOnSpark/tensorflow/tensorflow/c/c_api.cc:412-439 | the buffer holds the offset table followed by the strings, and the write pointer ends exactly at its end |
| `StringTensor.DecodeStrings` | TensorFlowOnSpark/tensorflow/tensorflow/c/c_api.cc:376-409 | the decoding loop with each of its checks: too short, offset out of range, bad length, or the strings |
| `StringTensor.DecodeElementMeaning` | TensorFlowOnSpark/tensorflow/tensorflow/c/c_api.cc:391-406 | each outcome for one element of any buffer, in terms of the offset word and the varint found there |
| `StringTensor.DecodedMeaning` | TensorFlowOnSpark/tensorflow/tensorflow/c/c_api.cc:376-409 | for any buffer: too short exactly when the table does not fit; otherwise the strings of all elements in order, or the outcome of the first element that fails |
| `StringTensor.ElementRoundTrip` | TensorFlowOnSpark/tensorflow/tensorflow/c/c_api.cc:391-407 | each element of an encoded tensor passes every check and gives its own string |
| `StringTensor.TensorRoundTrip` | TensorFlowOnSpark/tensorflow/tensorflow/c/c_api.cc:376-451 | decoding an encoded tensor gives back the strings, for every list of byte strings |
| `AttrBuffers.GetListMetadata` | TensorFlowOnSpark/tensorflow/tensorflow/c/c_api.cc:1315-1369 | type, size and total size of the first non-empty field, the total being the sum of string lengths or of known ranks; when all are empty and names are distinct, each of the seven type strings gives its own type with size 0 and total -1, an undeclared name leaves the type unset, and it is an error exactly when the name is declared with another string |
| `AttrBuffers.FindDeclaredType` | TensorFlowOnSpark/tensorflow/tensorflow/c/c_api.cc:1342-1367 | the loop over the definition, passing over other names, ended by an unknown type |
| `AttrBuffers.DeclaredTypeIsTheOne` | TensorFlowOnSpark/tensorflow/tensorflow/c/c_api.cc:1342-1367 | with distinct names the loop finds the declaration of that name, and leaves the metadata as they were when there is none |
| `AttrBuffers.ListTypeNames` | TensorFlowOnSpark/tensorflow/tensorflow/c/c_api.cc:1347-1360 | the type of each of the seven strings, and none for any other |
| `AttrBuffers.DeclaredTypeByName` | TensorFlowOnSpark/tensorflow/tensorflow/c/c_api.cc:1342-1367 | with distinct names: each declared string gives its type, an undeclared name none, and an error comes exactly for a string outside the seven |
| `AttrBuffers.StartGrows` | TensorFlowOnSpark/tensorflow/tensorflow/c/c_api.cc:1422-1433 | places start at zero and grow by the length of each string |
| `AttrBuffers.StartsAt` | TensorFlowOnSpark/tensorflow/tensorflow/c/c_api.cc:1422-1433 | entry i of the results is the place and the length of string i |
| `AttrBuffers.FlatAt` | TensorFlowOnSpark/tensorflow/tensorflow/c/c_api.cc:1422-1434 | each string lies in its own stretch of the storage, and the stretches follow one another without overlap |
| `AttrBuffers.DimStartGrows` | TensorFlowOnSpark/tensorflow/tensorflow/c/c_api.cc:1484-1503 | places of shapes grow by the rank of each, or by nothing when that is unknown |
| `AttrBuffers.RanksAt` | TensorFlowOnSpark/tensorflow/tensorflow/c/c_api.cc:1484-1503 | entry i of the results is the place and the rank of shape i, -1 when unknown |
| `AttrBuffers.DimFlatAt` | TensorFlowOnSpark/tensorflow/tensorflow/c/c_api.cc:1484-1503 | the same for the dimensions of shapes; an unknown rank takes no space |
| `AttrBuffers.GetStringList` | TensorFlowOnSpark/tensorflow/tensorflow/c/c_api.cc:1421-1434 | success exactly when the requested strings fit; places, lengths and bytes of the strings copied, the rest of the storage as before; on failure the first string that does not fit |
| `AttrBuffers.GetShapeList` | TensorFlowOnSpark/tensorflow/tensorflow/c/c_api.cc:1483-1503 | success exactly when the dimensions of the requested shapes fit; ranks, places and dimensions in order, the rest of the storage as before |
| `AttrBuffers.FetchStringList` | TensorFlowOnSpark/tensorflow/tensorflow/c/c_api.cc:1327-1435 | buffers sized by the metadata receive the whole list, and reading them gives it back |
| `AttrBuffers.FetchShapeList` | TensorFlowOnSpark/tensorflow/tensorflow/c/c_api.cc:1334-1504 | likewise for shapes, unknown ranks included |
| `GraphTable.FinishAgrees` | TensorFlowOnSpark/tensorflow/tensorflow/c/c_api.cc:1124-1145 | adding an operation keeps the name index in agreement with the node table, in both directions |
| `GraphTable.ImportAgrees` | TensorFlowOnSpark/tensorflow/tensorflow/c/c_api.cc:1661-1669 | so does indexing the nodes of an import one after the other |
| `GraphTable.ImportMeaning` | TensorFlowOnSpark/tensorflow/tensorflow/c/c_api.cc:1661-1669 | an import appends its nodes; each live one has its id and is indexed there; every old entry of the index stays |
| `GraphTable.UndoneAgrees` | TensorFlowOnSpark/tensorflow/tensorflow/core/graph/graph_constructor.cc:559-566 | the empty slots that a failed import leaves keep the index in agreement |
| `GraphTable.RunAgrees` | TensorFlowOnSpark/tensorflow/tensorflow/c/c_api.cc:1119-1669 | after any sequence of additions and imports, failed ones with their empty slots included, a name is mapped to an id exactly when that operation has it, and names are unique |
| `GraphTable.OpIdsComplete` | TensorFlowOnSpark/tensorflow/tensorflow/c/c_api.cc:1605-1626 | the ids to be visited include every live operation |
| `GraphTable.OpIdsInOrder` | TensorFlowOnSpark/tensorflow/tensorflow/c/c_api.cc:1605-1626 | they are ids of live operations only, increasing, so none comes twice |
| `GraphTable.IterationComplete` | TensorFlowOnSpark/tensorflow/tensorflow/c/c_api.cc:1605-1626 | an iteration from 0 that ran to its end, while other threads added nodes between its calls, has visited every operation of the final table once and in increasing order |
| `GraphTable.IterationFromZero` | TensorFlowOnSpark/tensorflow/tensorflow/c/c_api.cc:1605-1626 | such an iteration from 0 visits an id if and only if it is at least 2 and live in the final table, each once and in increasing order |
| `GraphTable.IterationFrom` | TensorFlowOnSpark/tensorflow/tensorflow/c/c_api.cc:1605-1626 | one from a later position visits an id if and only if it is above the position and live in the final table, each once and in increasing order |
| `GraphTable.IterationEnds` | TensorFlowOnSpark/tensorflow/tensorflow/c/c_api.cc:1605-1626 | from any position, over a table that no longer grows, the calls return the operations that are left and then null |
| `GraphTable.IterationEndsInTime` | TensorFlowOnSpark/tensorflow/tensorflow/c/c_api.cc:1605-1626 | over a table that no longer grows null comes within one call more than there are nodes, and calling longer visits nothing else |
| `GraphTable.OpsBetweenSplit` | TensorFlowOnSpark/tensorflow/tensorflow/c/c_api.cc:1723-1729 | consecutive stretches of shipped ids add up |
| `GraphTable.OpsBetweenStable` | TensorFlowOnSpark/tensorflow/tensorflow/c/c_api.cc:1723-1729 | nodes added later change nothing below |
| `GraphTable.OpsBetweenIncreasing` | TensorFlowOnSpark/tensorflow/tensorflow/c/c_api.cc:1723-1729 | a shipped stretch is in increasing order of id, so holds nothing twice |
| `GraphTable.OpsBetweenExact` | TensorFlowOnSpark/tensorflow/tensorflow/c/c_api.cc:1723-1729 | it holds exactly the operations with ids in the stretch, sentinels excluded |
| `CApiGraph.Graph.constructor` | TensorFlowOnSpark/tensorflow/tensorflow/c/c_api.cc:715-737 | a new graph has two sentinels, an empty index and no sessions |
| `CApiGraph.Graph.FinishOperation` | TensorFlowOnSpark/tensorflow/tensorflow/c/c_api.cc:1119-1150 | refused exactly when the name is in use, otherwise the outcome of the builder; on success the node is appended and indexed under its name with all other entries kept, on failure nothing changes |
| `CApiGraph.Graph.ImportGraphDef` | TensorFlowOnSpark/tensorflow/tensorflow/c/c_api.cc:1653-1670 | on success the nodes are appended, each live one is indexed under its id and every old entry of the index stays; a failed import leaves only empty slots behind, an unparseable graph nothing |
| `CApiGraph.Graph.OperationByName` | TensorFlowOnSpark/tensorflow/tensorflow/c/c_api.cc:1595-1603 | the operation with that name, or null exactly when there is none |
| `CApiGraph.Graph.NextOperation` | TensorFlowOnSpark/tensorflow/tensorflow/c/c_api.cc:1605-1626 | from 0 the least live id that is at least 2, from a later position the least live id above it; null exactly when there is none |
| `CApiGraph.Graph.AddSession` | TensorFlowOnSpark/tensorflow/tensorflow/c/c_api.cc:1679-1682 | the locked region performs the session-creating step of the lifetime protocol |
| `CApiGraph.Graph.DropSession` | TensorFlowOnSpark/tensorflow/tensorflow/c/c_api.cc:1697-1702 | the locked region performs the session-deleting step and computes `del` as the protocol does |
| `CApiGraph.Graph.RequestDelete` | TensorFlowOnSpark/tensorflow/tensorflow/c/c_api.cc:1587-1593 | the locked region performs the graph-deleting step and computes `del` as the protocol does |
| `CApiGraph.Session.TakeSnapshot` | TensorFlowOnSpark/tensorflow/tensorflow/c/c_api.cc:1714-1730 | the locked loop collects exactly the operations from the mark to the end of the table, or nothing is to be shipped |
| `CApiGraph.Session.FinishExtend` | TensorFlowOnSpark/tensorflow/tensorflow/c/c_api.cc:1732-1743 | the mark moves to the snapshot exactly when the session accepted it |
| `GraphLife.StepKeepsInvariant` | TensorFlowOnSpark/tensorflow/tensorflow/c/c_api.cc:1587-1706 | every step keeps: the count is the number of sessions, and one free is due exactly when deletion is requested and none is left |
| `GraphLife.HistoryMeaning` | TensorFlowOnSpark/tensorflow/tensorflow/c/c_api.cc:1587-1706 | the state after any run in terms of the calls made: deletion requested, sessions ever counted, sessions not deleted again, and frees |
| `GraphLife.FreedOnceAfterLastUse` | TensorFlowOnSpark/tensorflow/tensorflow/c/c_api.cc:1587-1706 | over every interleaving the graph is freed at most once and never while a session holds it; exactly one call computes `del` once deletion is requested and all sessions are gone, and none before |
| `GraphLife.NoTouchOnceDoomed` | TensorFlowOnSpark/tensorflow/tensorflow/c/c_api.cc:1587-1706 | no call enters the graph's mutex after some call has computed that it frees the graph |
| `GraphLife.CanBeFreed` | TensorFlowOnSpark/tensorflow/tensorflow/c/c_api.cc:1587-1706 | from every reachable state the callers can still bring about the free, so nothing is lost |
| `SessionExtend.StepKeepsInvariant` | TensorFlowOnSpark/tensorflow/tensorflow/c/c_api.cc:1711-1745 | each step of any thread keeps: shipped is exactly what lies below the mark, in flight is exactly the stretch from there |
| `SessionExtend.RunMeaning` | TensorFlowOnSpark/tensorflow/tensorflow/c/c_api.cc:1711-1745 | after any run the table is the first one followed by all that was added, and the sessions are those that were opened |
| `SessionExtend.ShippedExactly` | TensorFlowOnSpark/tensorflow/tensorflow/c/c_api.cc:1711-1745 | in every state of every run a session has shipped exactly the operations with ids below its mark, once each, in order |
| `SessionExtend.HelperCall` | TensorFlowOnSpark/tensorflow/tensorflow/c/c_api.cc:1711-1745 | whatever other threads do between unlock and Extend: on success everything present at the snapshot is shipped, on failure nothing has changed |
| `GoSession.StepKeepsInvariant` | TensorFlowOnSpark/tensorflow/tensorflow/go/session.go:69-148 | each step of any goroutine keeps: the wait group counts the runs in flight, only the holder is past the wait, a run in flight has an open session |
| `GoSession.NewSessionMeaning` | TensorFlowOnSpark/tensorflow/tensorflow/go/session.go:48-60 | a new session is open, unlocked, with nothing in flight and every goroutine outside |
| `GoSession.RunFromIdle` | TensorFlowOnSpark/tensorflow/tensorflow/go/session.go:69-129 | a Run on an open session is counted before it leaves the mutex, and afterwards the session is as it was |
| `GoSession.RunWhenClosed` | TensorFlowOnSpark/tensorflow/tensorflow/go/session.go:70-74 | a Run on a closed session ends with its check and changes nothing |
| `GoSession.CloseFromIdle` | TensorFlowOnSpark/tensorflow/tensorflow/go/session.go:133-148 | a Close with nothing in flight deletes and closes the session, or changes nothing when TF_CloseSession fails |
| `GoSession.RunIsSafe` | TensorFlowOnSpark/tensorflow/tensorflow/go/session.go:69-148 | in every run of any number of goroutines the C session is deleted at most once and never with a run in flight, and every run in flight sees a C session |
| `GoSession.WaitingComesNearer` | TensorFlowOnSpark/tensorflow/tensorflow/go/session.go:133-136 | while a Close waits with the mutex held, only runs in flight can step, none can start, and each step brings the end of the wait nearer |
| `GoSession.WaitIsBounded` | TensorFlowOnSpark/tensorflow/tensorflow/go/session.go:133-136 | a waiting Close is overtaken by a bounded number of steps in every schedule |
| `GoSession.NoDeadlock` | TensorFlowOnSpark/tensorflow/tensorflow/go/session.go:69-148 | in every state with a goroutine inside Run or Close that goroutine, or a run in flight it waits for, can step without taking the mutex |
| `GoSession.WaitEnds` | TensorFlowOnSpark/tensorflow/tensorflow/go/session.go:133-136 | runs in flight alone can bring every wait to its end |
| `GoSession.Session.EnterRun` | TensorFlowOnSpark/tensorflow/tensorflow/go/session.go:70-76 | the locked region of Run: refused exactly when the session is closed, else counted |
| `GoSession.Session.LeaveRun` | TensorFlowOnSpark/tensorflow/tensorflow/go/session.go:77 | the deferred Done takes back exactly what the entry added |
| `GoSession.Session.FinishClose` | TensorFlowOnSpark/tensorflow/tensorflow/go/session.go:137-147 | after the wait: nothing for a closed session, an error that leaves it open, or deleted and closed |
| `GoSystem.StepKeepsInvariant` | TensorFlowOnSpark/tensorflow/tensorflow/go/session.go:48-148 | each step of sessions, finalizer and free keeps: the graph counts exactly the open sessions, if sessions are counted in time |
| `GoSystem.SafeIffTimely` | TensorFlowOnSpark/tensorflow/tensorflow/go/session.go:48-60 | one step goes to no graph that is freed or about to be, exactly when it does not count a session after the finalizer has run and all others are closed |
| `GoSystem.AllSafeIffAllTimely` | TensorFlowOnSpark/tensorflow/tensorflow/go/session.go:48-60 | over whole runs: no step of any session, finalizer or creation goes to a freed graph if and only if every session was counted in time |
| `GoSystem.KeptAliveIsTimely` | TensorFlowOnSpark/tensorflow/tensorflow/go/session.go:48-60 | that is so whenever the Go graph is kept reachable until no call of NewSession is under way |
| `GoSystem.LateCountMeetsAFreedGraph` | TensorFlowOnSpark/tensorflow/tensorflow/go/session.go:51 | otherwise it need not be: four steps in which the finalizer runs between the read of the C pointer and the count of the session |
| `GoSystem.RunsNeverMeetAFreedGraph` | TensorFlowOnSpark/tensorflow/tensorflow/go/graph.go:36-44 | whenever the finalizer of the Go graph runs, if sessions are counted in time, no goroutine is ever in Run on a graph that is freed or about to be |
| `GoSystem.FreedIffAllClosed` | TensorFlowOnSpark/tensorflow/tensorflow/c/c_api.cc:1587-1706 | the graph is freed, or about to be, exactly when the finalizer has run and every session is closed; once only |
| `TempMemory.TemporaryMemoryManager.constructor` | TensorFlowOnSpark/tensorflow/tensorflow/stream_executor/temporary_memory_manager.h:59 | the table starts empty and the counter at an arbitrary value |
| `TempMemory.TemporaryMemoryManager.MarkFinalized` | TensorFlowOnSpark/tensorflow/tensorflow/stream_executor/temporary_memory_manager.cc:37-49 | the record at the address is marked whatever its generation; fatal exactly when it must exist and does not |
| `TempMemory.TemporaryMemoryManager.DeallocateFinalizedTemporaries` | TensorFlowOnSpark/tensorflow/tensorflow/stream_executor/temporary_memory_manager.cc:51-65 | erasing while walking removes exactly the finalized records and gives each back once |
| `TempMemory.TemporaryMemoryManager.ForceDeallocateAll` | TensorFlowOnSpark/tensorflow/tensorflow/stream_executor/temporary_memory_manager.cc:28-35 | every address on record is given back once; the table stays |
| `TempMemory.TemporaryMemoryManager.IsFinalizedAt` | TensorFlowOnSpark/tensorflow/tensorflow/stream_executor/temporary_memory_manager.cc:67-81 | false only for a live, unmarked record of that generation |
| `TempMemory.TemporaryMemoryManager.HasAllocatedAt` | TensorFlowOnSpark/tensorflow/tensorflow/stream_executor/temporary_memory_manager.cc:83-91 | true exactly for a record of that generation |
| `TempMemory.TemporaryMemoryManager.AllocateArrayBase` | TensorFlowOnSpark/tensorflow/tensorflow/stream_executor/temporary_memory_manager.cc:93-124 | a new record under the next generation and a handle for it that passes its construction check; nothing on failure of the allocator |
| `TempMemory.TemporaryDeviceMemory.constructor` | TensorFlowOnSpark/tensorflow/tensorflow/stream_executor/temporary_device_memory.cc:58-65 | a handle keeps its region and generation, which the table holds when it is made |
| `TempMemory.TemporaryDeviceMemory.Finalize` | TensorFlowOnSpark/tensorflow/tensorflow/stream_executor/temporary_device_memory.cc:41-46 | on a handle not finalized yet it is never fatal and marks that handle's own record; otherwise it is fatal exactly when the address has no record |
| `TempMemory.TemporaryDeviceMemory.Destroy` | TensorFlowOnSpark/tensorflow/tensorflow/stream_executor/temporary_device_memory.cc:23-27 | marks whatever record the address has; changes nothing when that is none or marked already |
| `TempMemory.TemporaryDeviceMemory.IsFinalizedNow` | TensorFlowOnSpark/tensorflow/tensorflow/stream_executor/temporary_device_memory.cc:48-51 | the manager's answer for this handle |
| `TempMemory.TemporaryDeviceMemory.IsAllocated` | TensorFlowOnSpark/tensorflow/tensorflow/stream_executor/temporary_device_memory.cc:53-56 | the manager's answer for this handle |
| `TempMemory.StepKeepsInvariant` | TensorFlowOnSpark/tensorflow/tensorflow/stream_executor/temporary_memory_manager.cc:37-124 | every step keeps: records match their handles, generations follow the counter, every allocation is either on record or released once |
| `TempMemory.StepMeaning` | TensorFlowOnSpark/tensorflow/tensorflow/stream_executor/temporary_memory_manager.cc:37-124 | what each step does to allocations, records, handles and requests |
| `TempMemory.HonestIffHarmless` | TensorFlowOnSpark/tensorflow/tensorflow/stream_executor/temporary_memory_manager.cc:37-49 | one step marks no record behind its handle's back exactly when it is not the destruction of a handle whose address now serves another temporary in use |
| `TempMemory.AlwaysHonestIffAllHarmless` | TensorFlowOnSpark/tensorflow/tensorflow/stream_executor/temporary_device_memory.cc:23-46 | over whole runs, no record is ever marked behind its handle's back if and only if every destruction was harmless |
| `TempMemory.SweepReleasesOnRequestIffHonest` | TensorFlowOnSpark/tensorflow/tensorflow/stream_executor/temporary_memory_manager.cc:51-65 | a sweep releases only what its own handles asked for exactly when all marks are their handles' own |
| `TempMemory.AlwaysOnRequestIffSweepsHonest` | TensorFlowOnSpark/tensorflow/tensorflow/stream_executor/temporary_memory_manager.cc:37-65 | over whole runs: no temporary is ever released before its own handle asks if and only if every sweep finds only marks of the handles' own |
| `TempMemory.HarmlessRunReleasesOnRequest` | TensorFlowOnSpark/tensorflow/tensorflow/stream_executor/temporary_memory_manager.cc:37-124 | in a run of harmless destructions no temporary is released before its own handle is finalized or destroyed |
| `TempMemory.UnaskedIsAllocated` | TensorFlowOnSpark/tensorflow/tensorflow/stream_executor/temporary_device_memory.cc:58-65 | while nothing is released unasked, the check on construction holds for every handle that has not been finalized or destroyed, at whatever later moment it is made |
| `TempMemory.SweepReleasesAsked` | TensorFlowOnSpark/tensorflow/tensorflow/stream_executor/temporary_memory_manager.cc:51-65 | in every run, after the next sweep every temporary that was finalized has been released exactly once |
| `TempMemory.NeverReleasedTwice` | TensorFlowOnSpark/tensorflow/tensorflow/stream_executor/temporary_memory_manager.cc:51-65 | in every run, harmless or not, no allocation is released twice, nor while on record |
| `TempMemory.LateDestructionReleasesAnother` | TensorFlowOnSpark/tensorflow/tensorflow/stream_executor/temporary_memory_manager.cc:37-49 | a run of eight steps in which a late destruction makes a sweep release a temporary still in use |
| `TempMemory.LiveGenerationsDiffer` | TensorFlowOnSpark/tensorflow/tensorflow/stream_executor/temporary_memory_manager.cc:105-115 | records of different addresses have different generations, across a wrap of the counter too |
| `TempMemory.AnswersAreStable` | TensorFlowOnSpark/tensorflow/tensorflow/stream_executor/temporary_memory_manager.cc:67-91 | along every run, once a handle is not allocated it stays so, and once finalized it stays so, even when its address is used again |
| `TempMemory.HasAllocatedMeansLive` | TensorFlowOnSpark/tensorflow/tensorflow/stream_executor/temporary_device_memory.cc:53-56 | the answer to a handle is true exactly when its own allocation is still on record |
| `TensorCodec.ShapeAndDataTypeOf` | TensorFlowOnSpark/tensorflow/tensorflow/go/tensor.go:169-194 | the loop down the first elements, with its length checks and its zeros below an empty slice, yields the shape as recursively defined |
| `TensorCodec.ShapeMeaning` | TensorFlowOnSpark/tensorflow/tensorflow/go/tensor.go:169-194 | each dimension is the length of the slice looked at on its level; it is refused exactly when the elements of one of these differ in length |
| `TensorCodec.ShapeEndsInZeros` | TensorFlowOnSpark/tensorflow/tensorflow/go/tensor.go:170-188 | for every value, after a zero dimension all later ones are zero |
| `TensorCodec.ShapeOfRectangular` | TensorFlowOnSpark/tensorflow/tensorflow/go/tensor.go:169-194 | for a rectangular value of any rank the shape read off the first elements is a shape of the whole value |
| `TensorCodec.ShapeIsTheOne` | TensorFlowOnSpark/tensorflow/tensorflow/go/tensor.go:169-194 | a rectangular value has one shape with that property, and it is the one found |
| `TensorCodec.ByteSizeOf` | TensorFlowOnSpark/tensorflow/tensorflow/go/tensor.go:216-228 | the wrapping product is element width times number of elements, modulo 2^64 |
| `TensorCodec.SameProduct` | TensorFlowOnSpark/tensorflow/tensorflow/go/tensor.go:169-194 | every shape that a value has, zero dimensions included, has the same number of elements |
| `TensorCodec.UnsupportedFails` | TensorFlowOnSpark/tensorflow/tensorflow/go/tensor.go:233-259 | a value, ragged or not, that holds an element of an unsupported kind is not written |
| `TensorCodec.EncodeOkIff` | TensorFlowOnSpark/tensorflow/tensorflow/go/tensor.go:232-262 | any value is written if and only if its slices are level by level as the writer demands and it holds no element of an unsupported kind; the bytes are the width times the number of its elements |
| `TensorCodec.KindTable` | TensorFlowOnSpark/tensorflow/tensorflow/go/tensor.go:148-240 | width of each kind in bytes, and which kinds the writer supports |
| `TensorCodec.ElementsOfRectangular` | TensorFlowOnSpark/tensorflow/tensorflow/go/tensor.go:216-228 | a rectangular value has as many elements as the product of its shape |
| `TensorCodec.MakeTensorShape` | TensorFlowOnSpark/tensorflow/tensorflow/core/framework/tensor_shape.cc:171-213 | adding the dimensions one by one passes all checks exactly when there are at most 255 and the 64-bit product stays within 0 to 2^40 at every dimension; their number arrives as an int |
| `TensorCodec.ShapeHeldMeaning` | TensorFlowOnSpark/tensorflow/tensorflow/core/framework/tensor_shape.cc:171-213 | that is: the narrowed number of dimensions is 0 to 255, and at every dimension the whole product so far, read as a signed 64-bit number, is 0 to 2^40 |
| `TensorCodec.SameCanAdd` | TensorFlowOnSpark/tensorflow/tensorflow/core/framework/tensor_shape.cc:171-213 | all shapes of one value are held or refused alike, zero dimensions included |
| `TensorCodec.RectangularEncoded` | TensorFlowOnSpark/tensorflow/tensorflow/go/tensor.go:232-262 | a rectangular value is written without error, in exactly as many bytes as its shape says |
| `TensorCodec.EncodedAt` | TensorFlowOnSpark/tensorflow/tensorflow/go/tensor.go:232-262 | the element at an index stands at its row-major place: width times the dot product with the dense strides |
| `TensorCodec.RectangularDecoded` | TensorFlowOnSpark/tensorflow/tensorflow/go/tensor.go:266-286 | reading along the shape gives the value back and consumes exactly its bytes, in either byte order |
| `TensorCodec.DecodedHasShape` | TensorFlowOnSpark/tensorflow/tensorflow/go/tensor.go:266-286 | whatever is read has the shape it was read along |
| `TensorCodec.DecodeOkIff` | TensorFlowOnSpark/tensorflow/tensorflow/go/tensor.go:266-286 | reading succeeds exactly for a supported kind, or no element to read, with enough bytes; it takes width times the product of the shape |
| `TensorCodec.DecodedEncodesBack` | TensorFlowOnSpark/tensorflow/tensorflow/go/tensor.go:266-286 | whatever bytes are read, writing the value gives them back |
| `TensorCodec.RoundTripIffRectangular` | TensorFlowOnSpark/tensorflow/tensorflow/go/tensor.go:67-138 | a value that becomes a tensor comes back unchanged if and only if it is rectangular |
| `TensorCodec.RectangularAcceptedIff` | TensorFlowOnSpark/tensorflow/tensorflow/go/tensor.go:67-146 | a rectangular value becomes a tensor if and only if it is no string, holds no element of an unsupported kind, has a shape that the C shape type holds, and takes at most 2^30 bytes; its tensor then has its shape and size, and reading gives the value and consumes every byte |
| `TensorCodec.AcceptedIff` | TensorFlowOnSpark/tensorflow/tensorflow/go/tensor.go:67-96 | any value, ragged or not, becomes a tensor if and only if its lengths agree where they are looked at, it is no string, it can be written within 2^30 bytes, the C shape type holds its shape and its bytes are as many as the wrapped size; the tensor has that shape and those bytes |
| `TensorCodec.NonEmptyAcceptedIff` | TensorFlowOnSpark/tensorflow/tensorflow/go/tensor.go:67-146 | for a rectangular value without a zero dimension that is: a supported kind, at most 255 dimensions and at most 2^30 bytes |
| `TensorCodec.DeepValueRefused` | TensorFlowOnSpark/tensorflow/tensorflow/core/framework/tensor_shape.cc:174 | one byte within n brackets is accepted up to 255 brackets; beyond them the process aborts |
| `TensorCodec.PassingCountRefused` | TensorFlowOnSpark/tensorflow/tensorflow/core/framework/tensor_shape.cc:210-212 | a value of shape 2^14, 2^14, 2^14, 0 has no element, and the process aborts at the third dimension |
| `TensorCodec.ManyEmptyRefused` | TensorFlowOnSpark/tensorflow/tensorflow/core/framework/tensor_shape.cc:210-212 | n empty slices are accepted up to 2^40 of them, beyond which the process aborts although there is no element |
| `TensorCodec.LargeSliceRefused` | TensorFlowOnSpark/tensorflow/tensorflow/go/tensor.go:140-146 | a slice of 2^30 + 1 bytes is refused: the slice expression of tensorData panics |
| `TensorCodec.LowRankIsRectangular` | TensorFlowOnSpark/tensorflow/tensorflow/go/tensor.go:175-185 | up to rank two the length checks leave only rectangular values |
| `TensorCodec.RaggedAccepted` | TensorFlowOnSpark/tensorflow/tensorflow/go/tensor.go:175-185 | a ragged value of rank three passes all checks and comes back changed |
| `TensorCodec.EncodeTensor` | TensorFlowOnSpark/tensorflow/tensorflow/go/tensor.go:232-262 | the recursive writer appends exactly the encoding to the buffer, or fails with its error |
| `TensorCodec.DecodeTensor` | TensorFlowOnSpark/tensorflow/tensorflow/go/tensor.go:266-286 | the recursive reader returns the decoded value and advances past exactly its bytes, or fails with its error |
| `TensorCodec.NewTensor` | TensorFlowOnSpark/tensorflow/tensorflow/go/tensor.go:67-96 | shape, string refusal, the abort of the C shape type, the panic beyond 2^30 bytes, encoding and size check in the order of the code |
| `TensorCodec.TensorValue` | TensorFlowOnSpark/tensorflow/tensorflow/go/tensor.go:128-146 | the value read from the tensor's bytes along its shape, or the panic beyond 2^30 bytes |
| `TensorCodec.ValueOfMeaning` | TensorFlowOnSpark/tensorflow/tensorflow/go/tensor.go:128-146 | a tensor is read if and only if its bytes are at most 2^30, its kind is supported and they cover its shape; writing the value gives the bytes read |
| `PluginRegistry.StepKeepsValid` | TensorFlowOnSpark/tensorflow/tensorflow/stream_executor/plugin_registry.cc:65-223 | every call keeps: a default that is set names a registered factory |
| `PluginRegistry.StepExtends` | TensorFlowOnSpark/tensorflow/tensorflow/stream_executor/plugin_registry.cc:65-82 | no call loses or replaces a registered factory |
| `PluginRegistry.FieldsOfKinds` | TensorFlowOnSpark/tensorflow/tensorflow/stream_executor/plugin_registry.cc:120-153 | each kind has its own map and default, and changing one leaves the others |
| `PluginRegistry.OwnAfter` | TensorFlowOnSpark/tensorflow/tensorflow/stream_executor/plugin_registry.cc:65-82 | the own factories of a platform after any call: the one registered under a new id, all others as before |
| `PluginRegistry.GenericAfter` | TensorFlowOnSpark/tensorflow/tensorflow/stream_executor/plugin_registry.cc:65-82 | the same for the generic factories |
| `PluginRegistry.DefaultAfter` | TensorFlowOnSpark/tensorflow/tensorflow/stream_executor/plugin_registry.cc:101-140 | the default of a platform and kind changes exactly by a request for that kind whose id is registered for the platform or for all |
| `PluginRegistry.ExplicitLookup` | TensorFlowOnSpark/tensorflow/tensorflow/stream_executor/plugin_registry.cc:84-223 | over every run an explicit id is served exactly when it is registered, and for ever after; a platform's own factory is never replaced and shadows the generic one |
| `PluginRegistry.DefaultLookup` | TensorFlowOnSpark/tensorflow/tensorflow/stream_executor/plugin_registry.cc:101-223 | after a default is set, and until another is, a default request serves the id set; it fails exactly when that is the null id |
| `PluginRegistry.GetFactoryMeaning` | TensorFlowOnSpark/tensorflow/tensorflow/stream_executor/plugin_registry.cc:84-223 | the factory served in terms of the maps: the default resolved, none for a null default, own before generic; nothing is registered for an unknown platform |
| `PluginRegistry.Registry.RegisterFactory` | TensorFlowOnSpark/tensorflow/tensorflow/stream_executor/plugin_registry.cc:65-195 | refused exactly when the platform has the id already; else looked up at once |
| `PluginRegistry.Registry.RegisterFactoryForAllPlatforms` | TensorFlowOnSpark/tensorflow/tensorflow/stream_executor/plugin_registry.cc:65-203 | the same for the generic factories |
| `PluginRegistry.Registry.SetDefaultFactory` | TensorFlowOnSpark/tensorflow/tensorflow/stream_executor/plugin_registry.cc:101-140 | succeeds exactly when the id is registered for the platform or for all; then it is the default |
| `PluginRegistry.Registry.HasFactory` | TensorFlowOnSpark/tensorflow/tensorflow/stream_executor/plugin_registry.cc:142-172 | registered for the platform or for all platforms |
| `PluginRegistry.Registry.GetFactory` | TensorFlowOnSpark/tensorflow/tensorflow/stream_executor/plugin_registry.cc:84-223 | resolves the default, then the platform's own factory before the generic one; the empty entries it inserts change no answer |
| `Partition.SumClosed` | TensorFlowOnSpark/scripts/spark_ec2.py:1251-1255 | the first i counts add up to i whole shares and one more for each of the first zones |
| `Partition.LaunchCounts` | TensorFlowOnSpark/scripts/spark_ec2.py:617-638 | the zone loop hands out the total exactly, and no two zones differ by more than one; the loop of lines 674-700 hands out the same counts |

## Left out

- Occupancy.OccupancyIsMaximal: stated in exact arithmetic, as are Occupancy.OccupancyAntitone, Occupancy.SearchExact and Occupancy.ClosedForm; Occupancy.CodeOccupancy and Occupancy.SearchMeaning are about the wrapping computation on every device, Occupancy.ExactForAllLimitsIff says when the two agree, and Occupancy.ClosedFormOfCode, Occupancy.ExactIffLimitIsInt and Occupancy.AlwaysExactIffExactStep are about the wrapping search, on kernels that fit 64 bits.
- Layout.AddressBijection: the 64-bit products are unbounded integers; Layout.StridesFit shows that the strides fit wherever the element count does.
- StringTensor.EncodeStrings: the encoding is at most 2^63 - 1 bytes and has at most 2^31 - 1 strings, since the loop variable is an `int`; the dimensions copied into the tensor are not modelled.
- StringTensor.DecodeStrings: on buffers that no encoder wrote, an offset or a length can lead outside the buffer, which the code does not check; the model ends with the outcome `ReadsOutside` there and says nothing further.
- AttrBuffers.GetListMetadata: attributes that are missing or not lists are not modelled.
- CApiGraph.Graph.ImportGraphDef: the importer is a parameter that appends fresh, distinct names on success, and on failure takes back what it appended; parsing, the node builder, shape refinement and the session library are not part of this model.
- GraphLife.FreedOnceAfterLastUse: the count of sessions is an unbounded integer, not a 32-bit `int`.
- SessionExtend.ShippedExactly: the versions copied into each shipped graph, and the function library, which the code does not send, are not modelled.
- GoSession.RunIsSafe: each goroutine is in one call at a time; building the arguments and the results of a run is not modelled. A failing TF_CloseSession leaves the session open; the status of TF_DeleteSession is always OK in c_api.cc:1695 and so has no branch.
- GoSystem.RunsNeverMeetAFreedGraph: holds for sessions counted in time only, since the code does not keep the Go graph reachable during NewSession; GoSystem.AllSafeIffAllTimely is the exact condition.
- TempMemory.StepKeepsInvariant: fewer than 2^64 allocations are made in a run; the counter may wrap. ForceDeallocateAll is not a step of the system, since the table it leaves behind is no longer true of the allocator.
- TempMemory.AlwaysHonestIffAllHarmless: over runs, handles are the numbered entries and the Finalize and Destroy steps of the system; the handle objects change the table as these steps do, one call at a time. Debug checks on the use of a finalized handle's memory are not modelled. The record and the handle are made in one step, while the code leaves the mutex in between; a late destruction and a sweep in that gap can make the check on construction fail, and TempMemory.UnaskedIsAllocated says when it holds.
- TensorCodec.NewTensor: Go arrays are treated as slices, element contents as opaque bits, and a type outside the table of kinds is not representable; the C allocator is taken to give memory, also for zero bytes, and a 64-bit signed product to wrap; finalizers are left out.
- PluginRegistry.DefaultLookup: plugin names, logging and the lookup of platforms by kind are left out.
- Partition.LaunchCounts: the requests to the cloud service are left out.
- TF_SessionRun beyond the extension of the session, TF_Run_Setup and the nulling of outputs.
- CalculateDimensionality and ThreadDimOk: one expression each.
- FilterDescriptor, PoolingDescriptor and ConvolutionDescriptor, and the names and descriptions printed for enumerations: fields and formatting.
- kernel_spec.cc, executor_cache.cc, machine_manager.cc, multi_platform_manager.cc, platform.cc and checkpoint_reader.cc: simple lookups and wrappers.
- blas.h, fft.h, rng.h, stream.h, kernel.h, timers, events, the dynamic loader, the rest of spark_ec2.py and the example scripts: interfaces, operating system calls and cluster plumbing.
