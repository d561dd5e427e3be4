# Models of the Ethereum application

This project models the parts of a hardware-wallet Ethereum application that carry the most state and
arithmetic, and proves what they promise for every input or over every run:

- **Wide integers** (`Powers`, `LongDivision`, `LimbShifts`, `UInt128`, `UInt256`, `Numerals`, `Printing`, `BigEndian`,
  `SignedInt`): 256-bit numbers made of 128-bit halves made of 64-bit limbs, updated in place through pointers that
  may coincide, against arithmetic on naturals.
- **Calldata and data paths** (`Calldata`, `PathSemantics`, `NestedLoops`, `DataPath`, `Abi`, `AbiReading`): a store that
  receives calldata in pieces and compresses it word by word, and the interpreter that walks it with an odometer of
  array counters, against a recursive enumeration, against nested loops, and against the Solidity ABI encoding of a
  typed value.
- **Nested transactions** (`TxProtocol`, `TxContext`, `TxHistory`, `TxDescriptors`, `TxRows`, `TxProgress`): the list of calls under review, their
  descriptors, their running hashes and the rules that take them off the list.
- **Reception of chunks** (`TlvApdu`, `Networks`): reassembly of TLV payloads, dynamic networks and their icons.
- **Smaller cores** (`Visibility`, `Rlp`, `Authorization`, `Swap`): constraints on displayed values, RLP and the bytes an
  EIP-7702 authorization signs, and the value of a swap.

`dafny verify dfyconfig.toml` checks everything.

## How the model is built

State that the C code updates in place is a class whose methods have its fields in their frames: limbs, the calldata
store, the odometer counters, the heap of parsed values, the context list, the TLV receiver, the network registry.
Each method is proved against a function on values (`Left`, `Outcome`, `Step`, `Receive`, ...), and the lemmas are about those
functions. What a run of commands must do to the contexts is stated on the list of commands alone: the calls, descriptors,
payloads and texts it carries (`Calls`, `Descriptors`, `FieldPayloads`, `Texts`). Integers carry their width explicitly: `u64` limbs, sums reduced by `AddMod`, 16-bit and 32-bit
conversions written out. An allocation or a full field table is a nondeterministic failure that sets a
ghost flag, so that contracts can say when an operation must succeed. A hash is an arbitrary
function from byte strings to byte strings. SDK lists are sequences, and an address is an identity that is never reused.

## Where the code does not do what its shape suggests

- `shiftr128` by exactly 64 clears the upper limb of its target before it reads the upper limb of its operand
  (`src/uint128.c:70-72`). Shifting a number in place by 64 therefore gives zero. `ShiftRightInPlaceCounterexample`
  shows it and `ShiftRightInPlaceExact` proves that this is the only case: the result is the shifted number if and only
  if the call is not in place by 64 with a non-zero upper limb. The 256-bit layer never makes such a call, so its
  shifts are exact in place too.
- `rlpEncodeNumber` takes a single zero byte for the number zero, and has no long form. `EncodedIsRlp` proves that what
  it writes is the encoding of the byte string if and only if the string has at most 55 bytes and is not a single zero.
- `clear_icon` leaves the icon counters as they are. They are stale until the next first chunk, and harmless: they are
  only read while a buffer exists, and then they describe that buffer (`Registry.Receiving`).
- A TLV first chunk that is too short to hold its length returns an error without resetting the state; the state is
  already all zero there, so this cannot be told apart from a reset (`Receiver.FromApdu`).

## Model

| member | source | states |
|---|---|---|
| `LongDivision.InitialAlignment` | src/uint256.c:205-209 | shifting the divisor under the top bit of the dividend stays below the next power of two, and covers every quotient bit |
| `LongDivision.DivisionStep` | src/uint256.c:210-218 | each turn hits a clear quotient bit, so OR is addition; keeps dividend = quotient * divisor + remainder; and ends below the divisor at bit 0 |
| `Powers.OrIsAdd` | src/uint256.c:159-162 | OR with a power of two at or below which a number has no bit is addition |
| `LimbShifts.LeftCases` | src/uint256.c:50-71 | every branch of a two-limb left shift, for any limb width, against the shift of the whole number |
| `LimbShifts.RightCases` | src/uint256.c:73-94 | the same for right shifts |
| `UInt128.U128.Greater` | src/uint128.c:109-114 | limb-wise comparison is comparison of the numbers |
| `UInt128.ShiftL128` | src/uint128.c:50-65 | the number shifted left modulo 2^128 for every uint32 amount, also in place |
| `UInt128.ShiftR128` | src/uint128.c:67-84 | the number shifted right, except in place by exactly 64 |
| `UInt128.ShiftRightInPlaceExact` | src/uint128.c:70-72 | the result is the shifted number if and only if the call is not in place by 64 on a number of 2^64 or more |
| `UInt128.ShiftRightInPlaceCounterexample` | src/uint128.c:70-72 | 2^64 shifted right in place by 64 gives 0 instead of 1 |
| `UInt128.Bits128` | src/uint128.c:86-103 | the loops count the bit length of the number |
| `UInt128.Add128` | src/uint128.c:120-124 | addition modulo 2^128, also when the target is an operand |
| `UInt128.Sub128` | src/uint128.c:126-130 | subtraction modulo 2^128, also when the target is an operand |
| `UInt128.DivMod128` | src/uint128.c:168-197 | exact quotient and remainder for every dividend and every divisor above 0, with the quotient output on the dividend |
| `UInt256.U256.Equals` | src/uint256.c:117-120 | equality of halves is equality of the numbers |
| `UInt256.U256.Greater` | src/uint256.c:122-127 | comparison of halves is comparison of the numbers |
| `UInt256.ShiftL256` | src/uint256.c:50-71 | the number shifted left modulo 2^256 for every uint32 amount, also in place |
| `UInt256.ShiftR256` | src/uint256.c:73-94 | the number shifted right for every uint32 amount, also in place |
| `UInt256.Bits256` | src/uint256.c:96-115 | the bit length of the number |
| `UInt256.Add256` | src/uint256.c:133-144 | addition modulo 2^256 through the carry of the low half, also when the target is an operand |
| `UInt256.Sub256` | src/uint256.c:146-157 | subtraction modulo 2^256 through the borrow of the low half, also when the target is an operand |
| `UInt256.Or256` | src/uint256.c:159-162 | bitwise OR of the whole numbers |
| `UInt256.DivMod256` | src/uint256.c:191-221 | exact quotient and remainder for every dividend and every divisor above 0, with the quotient output on the dividend and despite the early exit |
| `Numerals.ParseNumeral` | src/uint256.c:233-245 | the numeral of a number in any base from 2 to 16 parses back to it |
| `Numerals.CanonicalIsNumeral` | src/uint256.c:233-245 | every digit string without leading zero is the numeral of the value it parses to |
| `Numerals.DecimalParses` | src/uint256.c:264-297 | a signed decimal string reads back to its integer |
| `Numerals.DecimalInjective` | src/features/generic_tx_parser/gtp_param_raw.c:135-158 | two signed decimal strings are equal if and only if the integers are |
| `Printing.ReverseString` | src/utils/utils.c:148-159 | reverses a region of a buffer in place and nothing else |
| `Printing.ToString256` | src/uint256.c:223-253 | succeeds exactly when the base is 2 to 16 and the digits and a terminator fit; then the buffer holds the numeral; nothing outside the buffer changes |
| `Printing.ToString128` | src/uint128.c:199-226 | the same at 128 bits |
| `Printing.PrintersAgree` | src/uint256.c:223-253 | both widths agree on success and text, and the text is the canonical numeral that parses back |
| `Printing.ToString256Signed` | src/uint256.c:264-297 | the two's-complement value, the most negative one included, for base 10 as the signed decimal string |
| `Printing.ToString128Signed` | src/uint128.c:237-270 | the same at 128 bits |
| `SignedInt.ConvertUint256BE` | src/uint256.c:299-313 | the big-endian value for 1 to 32 bytes; otherwise refuses and leaves the target alone |
| `SignedInt.ConvertUint128BE` | src/uint128.c:286-299 | the big-endian value for 1 to 16 bytes; otherwise leaves the target alone |
| `SignedInt.SignedValueRange` | src/utils/utils.c:24-66 | the printed integer is the two's-complement reading at full width, and exactly the unsigned value below it |
| `SignedInt.SignedValueUnique` | src/utils/utils.c:35-63 | the printed integer is the only one in the two's-complement range of the type that is congruent to the data zero-extended to the type's width |
| `SignedInt.SignedUnique` | src/uint128.c:237-270 | the same for the signed printers of a full register |
| `SignedInt.ContainerKeepsValue` | src/utils/utils.c:39-63 | sign extension into the 8, 16 or 32-byte container keeps the value |
| `SignedInt.FormatSignedIntBE` | src/utils/utils.c:24-66 | succeeds exactly for 1 to type-size bytes, at most 32, when the text fits; then prints the signed value of the type |
| `Calldata.DecompressCompress` | src/features/generic_tx_parser/calldata.c:31-91 | decompression undoes compression for every word |
| `Calldata.CompressChunk` | src/features/generic_tx_parser/calldata.c:31-68 | drops the longer run of zeros, the leading one on a tie |
| `Calldata.DecompressChunk` | src/features/generic_tx_parser/calldata.c:70-91 | rewrites the scratch buffer with the word |
| `Calldata.Store.Append` | src/features/generic_tx_parser/calldata.c:93-138 | refuses what exceeds the announced size; otherwise adds exactly the given bytes, unless memory runs out |
| `Calldata.Store.GetChunk` | src/features/generic_tx_parser/calldata.c:170-183 | returns word i of complete calldata exactly when it exists, and keeps every later read intact |
| `Calldata.Receive` | src/features/generic_tx_parser/calldata.c:93-138 | for every split into pieces, the visible words are those of the whole data once it is complete, and none before |
| `PathSemantics.EnumerateStep` | src/features/generic_tx_parser/gtp_data_path.c:318-368 | the enumeration from a prefix is its first vector and then the enumeration from where the odometer goes next |
| `PathSemantics.OutcomeStep` | src/features/generic_tx_parser/gtp_data_path.c:327-368 | a failed pass is a failed evaluation, and a successful one leaves the evaluation from the next prefix |
| `PathSemantics.NextKeepsExtents` | src/features/generic_tx_parser/gtp_data_path.c:299-316 | arrays that stay open are re-read with the extents they were opened with |
| `NestedLoops.EnumerateMembers` | src/features/generic_tx_parser/gtp_data_path.c:241-316 | the enumeration holds exactly the index vectors whose bounds, read under the outer indices, allow them |
| `NestedLoops.EnumerateOrdered` | src/features/generic_tx_parser/gtp_data_path.c:318-325 | in strictly increasing lexicographic order |
| `NestedLoops.EvaluateIsNested` | src/features/generic_tx_parser/gtp_data_path.c:327-368 | for a path that emits after its last array, evaluation is nested loops over jagged arrays |
| `NestedLoops.LeafBoundsPasses` | src/features/generic_tx_parser/gtp_data_path.c:151-153 | a path with a leaf makes at most sixteen successful passes |
| `DataPath.PathSlice` | src/features/generic_tx_parser/gtp_data_path.c:202-231 | cuts the last value to the bytes between the bounds, byte by byte, inside its block, and changes no other value; or leaves everything |
| `DataPath.NarrowedBounds` | src/features/generic_tx_parser/gtp_data_path.c:211-226 | a bound that wraps when narrowed to 16 bits is always rejected |
| `PathSemantics.SelectMeans` | src/features/generic_tx_parser/gtp_data_path.c:211-226 | bounds select exactly the indices between them, negative ones counted from the end, and nothing only when they lie outside or enclose nothing |
| `PathSemantics.SliceOfLast` | src/features/generic_tx_parser/gtp_data_path.c:202-231 | a slice succeeds exactly on a last value its bounds lie inside, and gives its bytes by index |
| `Abi.SlicesCompose` | src/features/generic_tx_parser/gtp_data_path.c:227-229 | two slices in a row are one slice at the summed offset |
| `Abi.SlicedBytes` | src/features/generic_tx_parser/gtp_data_path.c:227-229 | byte i of a slice is byte start + i of the value |
| `PathSemantics.SmallMeans` | src/features/generic_tx_parser/gtp_data_path.c:121-142 | a word is taken for an offset or a length exactly when the number it holds is below 2^16 |
| `PathSemantics.RefMeans` | src/features/generic_tx_parser/gtp_data_path.c:121-142 | a reference succeeds exactly on such a number that is a multiple of 32, and leads that many bytes behind its base |
| `PathSemantics.ReadBytesMeans` | src/features/generic_tx_parser/gtp_data_path.c:179-199 | bytes are read exactly when the calldata is long enough, and are those of the calldata at that position |
| `PathSemantics.DynamicLeafMeans` | src/features/generic_tx_parser/gtp_data_path.c:160-199 | a dynamic leaf is the bytes behind its length word, as many as that word says |
| `DataPath.PathRef` | src/features/generic_tx_parser/gtp_data_path.c:121-142 | follows a 16-bit word offset that is a multiple of 32, relative to the reference base |
| `DataPath.PathLeaf` | src/features/generic_tx_parser/gtp_data_path.c:144-200 | appends the leaf's bytes in a block of their own, or gives the block back |
| `DataPath.PathArray` | src/features/generic_tx_parser/gtp_data_path.c:241-316 | enters the element the counters point at; the 16 and 32-bit arithmetic never wraps |
| `DataPath.ArraysUpdate` | src/features/generic_tx_parser/gtp_data_path.c:318-325 | the counters step to the next prefix of the enumeration |
| `DataPath.RunPass` | src/features/generic_tx_parser/gtp_data_path.c:330-362 | one pass over the path is the functional pass, offsets far below 2^32 |
| `DataPath.DataPathGet` | src/features/generic_tx_parser/gtp_data_path.c:327-368 | terminates on every path by the eight counters, and succeeds exactly when the enumeration has a value, which it appends in order, unless memory runs out |
| `DataPath.DataPathCleanup` | src/features/generic_tx_parser/gtp_data_path.c:370-376 | frees each block once at its base, sliced or not, and no other block |
| `Abi.ReadsBack` | src/features/generic_tx_parser/gtp_data_path.c:115-316 | the path compiled for a part of a typed value, slices of leaves included, reads that part wherever the value's encoding stands |
| `Abi.AbiRoundTrip` | src/features/generic_tx_parser/gtp_data_path.c:115-200 | for every type, value and selection with an encoding below 2^16 bytes, evaluation gives exactly the selected leaves in order, and fails only for a bad selection or more than sixteen leaves |
| `Abi.DynamicArgument` | src/features/generic_tx_parser/gtp_data_path.c:115-200 | [TUPLE, REF, LEAF dynamic] returns exactly the bytes of argument k |
| `Abi.SlicedArgument` | src/features/generic_tx_parser/gtp_data_path.c:202-231 | [TUPLE, LEAF static, SLICE from lo] returns the bytes of the word from lo on, such as the address in its last twenty |
| `AbiReading.ReceiveAndRead` | src/features/generic_tx_parser/calldata.c:93-183 | store and interpreter together: an encoding appended in any pieces and read by the odometer gives the selected and sliced leaves, and fails only when the selection does or memory runs out |
| `TxContext.Contexts.Init` | src/features/generic_tx_parser/tx_ctx.c:283-352 | queues a context at the back; fails only when memory runs out |
| `TxContext.Contexts.ProcessEmpty` | src/features/generic_tx_parser/tx_ctx.c:111-188 | adds all rows of an empty call and removes it, or leaves the list |
| `TxContext.Contexts.ProcessEmptiesBefore` | src/features/generic_tx_parser/tx_ctx.c:190-202 | renders the empty calls right before the current one |
| `TxContext.Contexts.ProcessEmptiesAfter` | src/features/generic_tx_parser/tx_ctx.c:204-216 | renders the empty calls right after the current one; keeps the invariant even when it fails |
| `TxContext.Contexts.FindMatching` | src/features/generic_tx_parser/tx_ctx.c:218-248 | selects the first undescribed call exactly when the contract behind its address, its selector and its chain match |
| `TxContext.Contexts.SetTxInfo` | src/features/generic_tx_parser/tx_ctx.c:255-281 | attaches a descriptor, and pops a nested call that announces no field |
| `TxContext.Contexts.HandleTxInfo` | src/features/generic_tx_parser/cmd_tx_info.c:26-32 | success is one protocol step; a descriptor that does not match changes nothing; one that does is accepted unless memory runs out |
| `TxContext.Contexts.AbsorbAndFormat` | src/features/generic_tx_parser/cmd_field.c:31-49 | a rejected field leaves every digest as it was |
| `TxContext.Contexts.PopComplete` | src/features/generic_tx_parser/cmd_field.c:50-56 | the loop pops every context whose hash is reached |
| `TxContext.Contexts.HandleField` | src/features/generic_tx_parser/cmd_field.c:11-80 | success is one protocol step, with all nested calls of the field; a field without a described context changes nothing; a formattable field is accepted unless memory runs out |
| `TxContext.Contexts.StartFlow` | src/features/sign_tx/cmd_sign_tx.c:143-165 | the review starts exactly when the current hash is reached and one context is left after the empty calls, unless memory runs out |
| `TxProtocol.RenderKeeps` | src/features/generic_tx_parser/tx_ctx.c:111-188 | rendering an empty call keeps the invariant of the run |
| `TxProtocol.DescribeKeeps` | src/features/generic_tx_parser/cmd_tx_info.c:26-32 | a descriptor goes to the next call, right behind the described ones, and keeps the invariant |
| `TxProtocol.PopKeeps` | src/features/generic_tx_parser/tx_ctx.c:104-109 | popping a matched context keeps the invariant; the context before it is a described one |
| `TxProtocol.PopMatchedKeeps` | src/features/generic_tx_parser/cmd_field.c:50-56 | the pop loop keeps the invariant and ends when nothing may be popped |
| `TxProtocol.FieldKeeps` | src/features/generic_tx_parser/cmd_field.c:11-58 | a field with its nested calls keeps the invariant |
| `TxProtocol.RunKeeps` | src/features/generic_tx_parser/tx_ctx.c:14-381 | the invariant holds over every run of commands |
| `TxProtocol.DescriptionOrder` | src/features/generic_tx_parser/tx_ctx.c:190-248 | in every run the k-th accepted TX_INFO went to the k-th context ever created with calldata |
| `TxProtocol.AccountedOnce` | src/features/generic_tx_parser/tx_ctx.c:104-216 | every context ever created is listed or has left, once in all; who left had the hash of its accepted payloads announced, or no calldata and its rows shown |
| `TxProtocol.RootAndCurrent` | src/features/generic_tx_parser/tx_ctx.c:104-109 | in transaction mode a root with calldata is never removed, and there is a current context, in the list, from the first TX_INFO on |
| `TxProtocol.ReviewComplete` | src/features/sign_tx/cmd_sign_tx.c:151-165 | when a review starts, the root's fields hash is the announced one, every other call has been accounted for, and all calls were described in order |
| `TxHistory.CallsAreQueued` | src/features/generic_tx_parser/gtp_param_calldata.c:224-232 | in every run the contexts created are those of the calls its commands carry, one for one and in order, with their calldata, destination and amount; and the payloads hashed are those of its fields in order |
| `TxHistory.StepHistory` | src/features/generic_tx_parser/cmd_field.c:31-49 | one command queues exactly the calls it carries, and its payload goes to the context that was current |
| `TxHistory.PayloadsAreJoined` | src/features/generic_tx_parser/cmd_field.c:38-42 | what a digest is fed is the payloads accepted for its context, one after the other |
| `TxHistory.ReviewShowsAll` | src/features/sign_tx/cmd_sign_tx.c:151-165 | when a review starts, every call carried by the commands but the root has left exactly once, as the very call carried and for a reason, and the calls with calldata were described in the order carried |
| `TxHistory.StartsExactly` | src/features/sign_tx/cmd_sign_tx.c:151-165 | a review may start exactly when the root's fields are complete and no other call with calldata is listed |
| `TxHistory.EmptyRootEnds` | src/features/sign_tx/eth_ustream.c:647-667 | a transaction whose root has no calldata accepts no descriptor and no field |
| `TxProgress.CompleteCallsLeave` | src/features/generic_tx_parser/cmd_field.c:50-56 | after every command of a run, no described call has its fields hash reached, unless it is the root of a transaction; so a review can only start on the root's own hash |
| `TxProgress.CompletionShowsEmpties` | src/features/generic_tx_parser/cmd_field.c:50-56 | a field that completes a context also shows the empty calls right behind it |
| `TxDescriptors.DescriptionsFit` | src/features/generic_tx_parser/tx_ctx.c:218-248 | in every run the k-th descriptor names the call it went to, by selector, chain, and the contract registered behind its address or the address itself; and what a call is described with, listed or gone, is that descriptor |
| `TxDescriptors.AcceptedExactly` | src/features/generic_tx_parser/tx_ctx.c:218-248 | after any run a descriptor is accepted exactly when it names the first call carried with calldata that no descriptor went to |
| `TxRows.RowsOfRun` | src/features/generic_tx_parser/tx_ctx.c:255-267 | in every run the field rows are the texts of all fields in order, and the intents are those of the empty calls and the operations of all descriptors but that of a transaction's root |
| `TxRows.NetworkShown` | src/features/generic_tx_parser/tx_ctx.c:175-181 | in every run of a transaction, an empty call's rows name its network exactly when its chain is not the root's |
| `TxDescriptors.EmptyCallShown` | src/features/generic_tx_parser/tx_ctx.c:111-183 | the rows of an empty call show its destination, its amount exactly if it has one, its network exactly if it is not the root's |
| `TxDescriptors.NestedChain` | src/features/generic_tx_parser/tx_ctx.c:307-332 | a nested call inherits the chain of the context being described, else of the last one queued |
| `TlvApdu.Reassembly` | src/tlv_apdu.c:19-94 | in every run, with any interleaving, the state after a call is idle or the chain of chunks since the most recent first chunk |
| `TlvApdu.HandlerCalls` | src/tlv_apdu.c:73-92 | a handler is called with a payload exactly when a chain of chunks for it alone, begun idle and of the announced length, ends there; and with its bytes |
| `TlvApdu.SentIsDelivered` | src/tlv_apdu.c:33-93 | from the sender's side: two big-endian bytes of length and the payload in any pieces, sent on an idle state, deliver exactly that payload at the last call and nothing earlier |
| `TlvApdu.FramesSend` | src/tlv_apdu.c:33-45 | every payload of up to 65535 bytes can be sent so, in any pieces that fit a command |
| `TlvApdu.DeliveredSize` | src/tlv_apdu.c:62-66 | no handler is called with an empty payload or one above 65535 bytes |
| `TlvApdu.Receiver.FromApdu` | src/tlv_apdu.c:14-94 | the class does what the protocol step says; afterwards the state is all zero, or pending with a buffer and room |
| `Networks.Registry.Cleanup` | src/features/provide_network_info/network_info.c:416-439 | removes one network, and the icon state with it exactly when it was the last added |
| `Networks.Registry.Append` | src/features/provide_network_info/network_info.c:291-315 | replaces the network of a chain and becomes the last added |
| `Networks.Registry.PrepareIcon` | src/features/provide_network_info/network_info.c:324-341 | drops what belonged to another descriptor, and keeps the announced hash unless it is all zeros |
| `Networks.IconHeader` | src/features/provide_network_info/network_icon.c:49-69 | a header is accepted exactly when its little-endian width and height are the expected ones and the size it gives fits 16 bits |
| `Networks.IconFileSize` | src/features/provide_network_info/network_icon.c:40-69 | the size read from an icon file is its length |
| `Networks.Registry.HandleConfig` | src/features/provide_network_info/cmd_network_info.c:68-77 | the new list, last-added network and icon hash for every outcome of the reassembly; a parsed descriptor fails only when memory runs out |
| `Networks.Registry.NextChunk` | src/features/provide_network_info/network_icon.c:182-196 | accepts a chunk exactly when it fits the buffer, and disturbs no attached icon |
| `Networks.Registry.ParseIcon` | src/features/provide_network_info/network_icon.c:98-143 | a full buffer is attached exactly when its hash is the announced one |
| `Networks.Registry.HandleIcon` | src/features/provide_network_info/cmd_network_info.c:79-86 | the stream so far, or the attached bitmap, is exactly the chunks since the first; which first and following chunks are accepted; an error drops the last added network |
| `Networks.Registry.Run` | src/features/provide_network_info/cmd_network_info.c:59-109 | over every sequence of commands: chains unique, last-added network listed, pending hash its own, attached bitmaps hash as announced, received size within the buffer |
| `Visibility.StringsEqual` | src/features/generic_tx_parser/gtp_param_raw.c:153-155 | comparing two terminated buffers is comparing their texts |
| `Visibility.CheckUint` | src/features/generic_tx_parser/gtp_param_raw.c:90-104 | true exactly when the value is in the constraint set |
| `Visibility.CheckInt` | src/features/generic_tx_parser/gtp_param_raw.c:141-158 | decimal-string matching is membership of the integer in the constraint set |
| `Visibility.FormatUint` | src/features/generic_tx_parser/gtp_param_raw.c:106-133 | succeeds exactly for an acceptable value, and writes its text exactly if it is visible |
| `Visibility.FormatInt` | src/features/generic_tx_parser/gtp_param_raw.c:160-173 | the same for signed values |
| `Visibility.FormatParamRaw` | src/features/generic_tx_parser/gtp_param_raw.c:369-419 | succeeds exactly when all values are acceptable, and emits the visible ones in order |
| `Visibility.RulesAreFilters` | src/features/generic_tx_parser/gtp_param_raw.c:54-81 | ALWAYS emits all numbers, IF_NOT_IN those outside the set in order, MUST_BE none, all being in the set |
| `Rlp.RoundTrip` | src/features/sign_authorization_eip7702/rlp_encode.c:8-33 | the decoder of Appendix B of the Ethereum Yellow Paper undoes the encoding of every nested item, whatever follows |
| `Rlp.DecodedIsEncoded` | src/features/sign_authorization_eip7702/rlp_encode.c:8-33 | and accepts nothing else |
| `Rlp.KnownEncodings` | src/features/sign_authorization_eip7702/rlp_encode.c:8-33 | the encodings given with the definition of RLP |
| `Rlp.KnownPrefixes` | src/features/sign_authorization_eip7702/rlp_encode.c:66-78 | the prefixes of longer strings and lists |
| `Rlp.EncodedIsRlp` | src/features/sign_authorization_eip7702/rlp_encode.c:8-33 | the bytes written are the encoding of the string if and only if it has at most 55 bytes and is not a single zero |
| `Rlp.NumberRoundTrip` | src/features/sign_authorization_eip7702/rlp_encode.c:8-33 | every uint64 is encoded as the Yellow Paper encodes it and decodes back |
| `Rlp.NumberShortest` | src/features/sign_authorization_eip7702/rlp_encode.c:8-33 | no string that even a lenient reader takes for the number is shorter |
| `Rlp.EncodeNumber` | src/features/sign_authorization_eip7702/rlp_encode.c:8-33 | writes those bytes and only those, or nothing when the buffer might not hold them |
| `Rlp.SmallestEncodingSize` | src/features/sign_authorization_eip7702/rlp_encode.c:44-54 | the number of bytes of the minimal big-endian form, zero included |
| `Rlp.EncodedNumber64Length` | src/features/sign_authorization_eip7702/rlp_encode.c:56-64 | predicts the length of the encoding of every uint64 |
| `Rlp.EncodedNumberLength` | src/features/sign_authorization_eip7702/rlp_encode.c:35-42 | predicts the length of the encoding of a byte string |
| `Rlp.EncodeListHeader8` | src/features/sign_authorization_eip7702/rlp_encode.c:66-78 | writes the list prefix for every size up to 255 |
| `Rlp.HeaderRoundTrip` | src/features/sign_authorization_eip7702/rlp_encode.c:66-78 | a prefix decodes to its payload size |
| `Authorization.Preimage` | src/features/sign_authorization_eip7702/commands_7702.c:90-131 | what is hashed is the magic byte and the encoding of the list of chain, delegate and nonce |
| `Authorization.PreimageDecodes` | src/features/sign_authorization_eip7702/commands_7702.c:90-131 | read back, what is hashed is a list of three strings: the chain as a number, the delegate, the nonce as a number |
| `Authorization.PreimageBinds` | src/features/sign_authorization_eip7702/commands_7702.c:90-131 | the hashed bytes determine chain, delegate and nonce |
| `Swap.Expectation.Stage` | src/swap/handle_swap_sign_transaction.c:113-175 | succeeds exactly when the amount fits a word and its text formats; stages the number, the text, and the zero check exactly for a crosschain swap whose asset differs from the native currency in token, decimals or ticker |
| `Swap.Expectation.CheckValue` | src/swap/eth_swap_utils.c:282-342 | goes on exactly when the value is zero for a token swap, or equals the amount as a number and as a text otherwise |

## Left out

- The screens (src/nbgl) and the formatting of rows: rows of the review are recorded by what they say; the start and end marks of an intent are not.
- Signature checks, key derivation and the insides of hash functions: a hash is an arbitrary function; a failure inside the hash library is not modelled.
- TLV parsing macros and tag handlers: commands receive parsed and verified descriptors and fields.
- `mul128` and `mul256`: their product comes from an SDK call that is not part of this model.
- `uint256_to_decimal` and `format_i64` belong to the SDK: `Uint256ToDecimal` and `FormatI64` stand in for them and are proved to print the number.
- `convertUint64BEto128`, `buf_shrink_expand`, `str_cpy_explicit_trunc`: easy members beside the ones above.
- Division by zero: `divmod256` and `divmod128` do not terminate for it, and `DivMod256` and `DivMod128` require a divisor above 0.
- TxProtocol: the `from` address of a context and its inheritance, the EIP-712 bookkeeping of `calldata_info`, and the flags for a root value or sender already shown.
- TxContext.Contexts.HandleTxInfo: does not say what a failure after the match leaves, because a failed command resets the application (src/main.c:151-163).
- TxContext.Contexts.HandleField: formatting is modelled by what it does to the contexts: the calls it queues and the texts it adds; whether a field is formattable is an input.
- Calldata.Store.Append: does not describe the object after a failed allocation, which every caller drops.
- Networks.Registry.Run: leaks are not tracked, and `handle_get_config` is not modelled.
- Visibility: addresses, booleans, byte strings and strings, whose matching is byte equality.
- Swap: parsing of the swap configuration, destination and fee checks; `amountToString` is an arbitrary function.
- TxRows.RowsOfRun, TxRows.NetworkShown: for a transaction whose root has calldata; `EmptyRootEnds` shows that no other transaction gets as far as a description.
- Null pointers passed where the callers never pass one.
- Plugins, address book, token, NFT, enum and trusted-name lists: linear lookups or calls into other applications.
