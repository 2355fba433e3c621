# A verified model of actf

actf decodes Common Trace Format 2 streams (CTF2-SPEC-2.0). This project models its algorithms in Dafny and
proves what they are for. `dafny verify dfyconfig.toml` checks everything.

The model follows the C code statement by statement where that code changes state, and it is proved against
specifications that do not mention how the code works:

- **Interval tree** (`RbMem`, `RbRotate`, `RbColour`, `RbInsert`, `RbLeaf`, `RbSplice`, `RbDelete`, `RbRebalance`,
  `RbSearch`, `IvalTree`, `RbHeight`): the augmented red-black tree of `crust/rb_tree.c` and `crust/ival.h`. Nodes are
  indices into one memory of links, colours, bounds and cached maxima, with parent links and the nil sentinel as in
  the code; a ghost list gives their order. Insertion and deletion keep one binary tree, its order, the red and black
  rules and exact cached maxima, and the resumable search lists every overlapping interval once.
- **Mappings** (`Mappings`): the index that is built on that tree names the same mappings as the plain scan.
- **Bit reader and integers** (`Bits`, `Words`, `BitReader`, `Leb128`, `FldDecode`, `FldOrder`): the 64-bit lookahead with
  its branch-free refill refines a sequence of bits and a position; fixed- and variable-length integers come out exact,
  bit by bit in either bit order, and as the numbers that whole bytes and groups of seven bits are.
- **Clocks** (`Clock`): timestamps written modulo a power of two are recovered, and converted to nanoseconds.
- **Fields** (`FldLocs`, `FldPaths`, `FldValues`, `FldParse`, `FldLaws`, `FldLayout`, `FldFaults`, `FldTree`): whatever
  decodes, however deep, is complete, ends within its packet and holds the stream's integers; so do all events of a
  packet, and the packet is left for its end. Whether a field or an event decodes, and to what, is a recursive function of
  the data, the position, the byte orders and the fields before (`FldParse.Parse`), which the decoder's methods refine.
  What that function comes to is told without it: `FldPaths` relates a field location to the field that its path leads
  to, `FldLayout` says which bits of the stream hold a decoded field and what it holds, part by part, `FldFaults` says
  what is at fault when one fails, and `FldLaws` what the outcome does not depend on.
- **Events** (`Events`, `Pipeline`, `PktReading`, `PrioQueue`, `Muxer`, `Filter`): the decoder's batches, delayed errors
  and seeks over the packets that lie one behind another in a stream, the k-way merge and the time filter, each over
  whole runs.
- **All together** (`Trace`): decoders, merge and filter select exactly the events of a time range from several streams.
- **Hash map** (`HashMap`): open addressing with growth that may fail refines a finite map.

`Arith` holds lemmas about products and remainders, `Wrappers` an option and a result type.

## Where the code does less than it promises

Each of these is stated for all inputs, with the exact condition under which the code is right or with what it does
instead, and the subtler ones with an input for which it is not:

- `breader_set_bo` swaps the lookahead before aligning, which is right exactly at a byte boundary, unless aligning skips
  the whole lookahead (`BitReader.SwapNeedsByteBoundary`, `FldDecode.Decoder.Faithful`). A little-endian field that
  follows a four-bit big-endian one can be decoded wrongly without an error (`FldDecode.MidByteField`,
  `FldDecode.MidByteFieldFails`).
- A packet without events ends the decoding of its stream, whatever comes behind it (`Pipeline.EmptyPacketEnds`), but a
  seek passes over it, so it finds what decoding does exactly if no such packet comes before the time sought or nothing
  is found behind it (`Pipeline.SeekIsExact`, `Pipeline.EmptyPacketPassed`).
- An event that takes no bits is decoded for ever (`Pipeline.NeverHalts`), and a packet without header, events and length
  is passed over for ever by a seek (`Pipeline.SeekNeverHalts`).
- A seek that skips a packet goes on where decoding it would exactly if the packet ends on a whole byte or with the data
  (`Pipeline.TargetIsEnd`).
- If a packet's header and context are longer than its total length, the bits to skip wrap around and the rest of the
  data is skipped (`Pipeline.PacketLeft`, `FldTree.TreeDecoder.FinishPacket`).
- `calc_new_def_clk_val` takes the number of groups of a variable-length field for its number of bits
  (`Clock.VariableLengthClock`, `Clock.VariableLengthClockRunsAhead`).
- `actf_clk_cls_cc_to_ns_from_origin` loses the top of a product for clocks above 18.4 GHz, and the top of a sum for clock
  values close to 2^64 unless a cycle is a whole number of nanoseconds (`Clock.NsExact`, `Clock.NsInexact`).
- `urng_cmp` truncates a 64-bit difference (`Mappings.WhenOrders`), and a set sorted by it can lose values in the merge
  (`Mappings.ValuesLost`).
- `uint64cmp` compares only the low 32 bits, so an absent event or stream class id may be found
  (`HashMap.AbsentId`, `HashMap.ConfusedIds`); ids that are in the map are found all the same (`HashMap.FindId`).
- The date that the filter takes from an event before the origin of time is the next day's (`Filter.DateOfTime`,
  `Filter.DateBeforeOrigin`).

## Hypotheses

- Interval bounds are unsigned: for an absent child the code counts 0 as the maximum, which is exact only then.
- Alignments and capacities are positive powers of two, as `fld_cls_int.h:145` and initialisation demand. The check in
  `json_utils.c:85-88` lets an alignment of 0 through as well, which is not part of this model.
- The filter and the merge order events only if each generator's own stream is in time order.
- Statements about whole runs of a decoder are about runs that end. All do if every event takes at least one bit
  (`Pipeline.Halts`), and seeks do if packet headers take one too (`Pipeline.SeekHalts`).
- A seek finds the first event at the time sought if before it no event fails to decode, packets of known length end on
  a whole byte or with the data and not before their events, and no event is later than the end that its packet's header tells
  (`Pipeline.Clear`). Packet headers may fail, and so may everything behind that event.
- All integers of a decoded field are those of the stream if they have one byte order; with mixed orders that holds for
  each integer for which `FldDecode.Decoder.Faithful` does.
- `Pipeline` knows a header or an event by what decoding it from some position comes to. What follows from a packet that
  starts on a whole byte depends on its position alone, since decoding a header resets the packet state and the reader
  may swap its byte order there; in the middle of a byte it may depend on the byte order and the lookahead as well, so
  packets are taken to start on whole bytes.
- Generators are known by the answers they give; a generator that has ended yields nothing more.

## Model

| member | source | states |
|---|---|---|
| RbRotate.RotatedTurned | crust/rb_tree.c:125-149 | a rotation moves exactly the links it should: the six link changes hold and every other child, parent and colour stays |
| RbRotate.TurnedLinked | crust/rb_tree.c:125-149 | after a rotation the links again form one binary tree, whose nodes read from left to right are the same |
| RbRotate.RotatedRecached | crust/rb_tree.c:147-148 | the two callback calls of a rotation make the maxima of the turned nodes exact and touch no other |
| RbRotate.RecachedMaxOk | crust/rb_tree.c:125-149 | recomputing the cached maxima of the two turned nodes, lower one first, makes them exact at every node where they were exact before |
| RbColour.TurnedBlackOk | crust/rb_tree.c:125-149 | what a rotation does to the black height at a node |
| RbColour.TurnedRedOk | crust/rb_tree.c:125-149 | what a rotation does to the red rule at a node |
| IvalTree.Tree.constructor | crust/rb_tree.c:66-76 | an empty tree meets every invariant |
| RbInsert.FindPair | crust/rb_tree.c:157-161 | while the parent is red, there are a grandparent and an uncle on known sides |
| RbInsert.RecolouredRepairing | crust/rb_tree.c:162-166 | recolouring under a red uncle keeps every invariant but for one red pair, which moves two levels up |
| RbInsert.InnerRepairing | crust/rb_tree.c:168-171 | rotating an inner child outwards keeps every invariant but for the one red pair |
| RbInsert.OuterRepairing | crust/rb_tree.c:172-174 | recolouring and rotating under a black uncle removes the red pair |
| IvalTree.Tree.InsertRebalance | crust/rb_tree.c:157-180 | from a tree that is sound but for one red pair the loop ends with a sound tree holding the same nodes in the same order |
| RbLeaf.LeafAddedLinked | crust/rb_tree.c:78-93 | hanging a node under a free slot gives one binary tree with the node at that place in the order |
| RbLeaf.WalkStep | crust/ival.h:113-123 | on the way down the walk stays where the new lower bound belongs, and the maxima passed are those of the tree to be |
| RbLeaf.LeafSorted | crust/ival.h:113-124 | at the end of the way the new node is in order |
| RbLeaf.LeafRepairing | crust/ival.h:124-125 | the new red leaf leaves every invariant but for one red pair, with every cached maximum exact |
| IvalTree.Tree.Insert | crust/ival.h:104-126 | insertion keeps every invariant and puts the node between those with a lower bound not above its own and those with a higher one; nothing else changes place |
| RbSplice.SplicedLinked | crust/rb_tree.c:212-222 | putting a node's only child in its place gives one binary tree without the node |
| RbSplice.RenamedLinked | crust/rb_tree.c:280-293 | putting the successor in the place of a node gives one binary tree with the successor there |
| RbDelete.SplicedCut | crust/rb_tree.c:273-278 | after cutting out a node with at most one child, one side of one place lacks one black if the node was black, and the maxima are stale only above it |
| RbDelete.SuccessorFound | crust/rb_tree.c:280-282 | the least node of the right subtree is the next in order and has no left child |
| RbDelete.MovedCut | crust/rb_tree.c:280-293 | the same after moving the successor, whose colour decides what is lacking |
| RbDelete.MovedOrd | crust/rb_tree.c:280-293 | moving the successor removes exactly the deleted node from the order |
| RbRebalance.FindSibling | crust/rb_tree.c:227-229 | a place that lacks a black has a real sibling |
| RbRebalance.RedSibling | crust/rb_tree.c:230-238 | case 1: after the rotation the sibling is black and the same side still lacks one black |
| RbRebalance.PushedUp | crust/rb_tree.c:239-242 | case 2: the lack moves to the parent |
| RbRebalance.NearNephew | crust/rb_tree.c:244-249 | case 3: after the rotation the far nephew is red |
| RbRebalance.FarNephew | crust/rb_tree.c:250-254 | case 4: nothing lacks a black any more |
| RbRebalance.WalkUp | crust/rb_tree.c:302-308 | recomputing one node on the way up makes the maxima exact one level higher |
| IvalTree.Tree.RebalanceDelete | crust/rb_tree.c:225-266 | the loop ends with equal black heights, no red pair and the maxima stale only above the node it returns |
| IvalTree.Tree.WalkToRoot | crust/rb_tree.c:302-309 | the final walk makes every cached maximum exact |
| IvalTree.Tree.Delete | crust/rb_tree.c:268-309 | deletion keeps every invariant and leaves exactly the other nodes in their order |
| RbHeight.EqualBlackHeights | crust/rb_tree.c:35-39 | all ways from a node down to a nil have the same number of black nodes |
| RbHeight.WaysAreShort | crust/rb_tree.c:31-39 | a way of length k implies at least 2^((k+1)/2) - 1 nodes |
| RbSearch.HitsExact | crust/ival.h:84-87 | the preorder list of a subtree's overlapping intervals holds each of them once and nothing else |
| RbSearch.MaxAttained | crust/ival.h:94-102 | the cached maximum is the greatest upper bound in the subtree and some node has it |
| RbSearch.NoWayBack | crust/ival.h:139-147 | if the left branch is worth a look but has no overlap, neither has the right one |
| RbSearch.FirstDown | crust/ival.h:132-149 | the first search finds the first overlap without ever going back |
| RbSearch.GoDown | crust/ival.h:132-149 | passing over a node on the way down loses no overlap that comes after the last match |
| RbSearch.GoUp | crust/ival.h:150-162 | each step of the climb loses no overlap that comes later |
| RbSearch.AfterHit | crust/ival.h:128-169 | what comes after the i-th overlap in the tree is the rest of the list of overlaps |
| IvalTree.Tree.Climb | crust/ival.h:150-162 | the climb reaches the next subtree that can hold an overlap, or the root when there is none |
| IvalTree.Tree.Intersect | crust/ival.h:128-169 | a search returns the next overlap after the last match, or null if there is none, and ends |
| IvalTree.Tree.Enumerate | mappings.c:178-183 | searching from null and then from each match lists every overlap exactly once, then null |
| Mappings.WhenOrders | mappings.c:198-203 | the comparison has the sign of the difference of the lower bounds exactly when that is not positive or its low 32 bits make a positive int |
| Mappings.SortedIsAscending | mappings.c:227 | a set that is sorted by the comparison, which orders all its pairs rightly, ascends |
| Mappings.Merge | mappings.c:228-248 | the loop computes the merged intervals |
| Mappings.MergedExact | mappings.c:228-248 | merging an ascending set gives disjoint intervals in order with exactly the same values |
| Mappings.ValuesLost | mappings.c:198-248 | a set with lower bounds 2^31 apart that the comparison accepts in the wrong order and whose merge loses values |
| Mappings.FaithfulGrows | mappings.c:225-249 | adding the intervals of the next mapping keeps all intervals of one mapping disjoint and every mapping's values exact |
| Mappings.AllMergedExact | mappings.c:213-248 | merging sets that the comparison orders rightly gives every mapping disjoint intervals with exactly its values |
| Mappings.Index.constructor | mappings.c:213-262 | the index holds what the merge makes of the sets, which is exactly their values if the comparison orders every set rightly |
| Mappings.Index.FindUint | mappings.c:178-183 | one lookup gives the mapping of the next overlapping interval; the first one gives none exactly if no mapping has the value |
| Mappings.Index.FindAll | mappings.c:178-183 | iterating an exact index names exactly the mappings that have the value, each once |
| Mappings.NamesOfHits | mappings.c:178-183 | disjoint intervals per mapping make each name come once |
| Mappings.SetIntersect | rng.c:150-159 | true exactly if some range of the set has the value |
| Mappings.FindRaw | mappings.c:99-109 | the plain scan gives the next mapping that has the value and where to go on |
| Mappings.FindAllRaw | mappings.c:99-109 | iterating the plain scan names exactly the mappings that have the value, each once |
| Mappings.SameNames | mappings.c:99-109 | the index and the plain scan name the same mappings, each as often |
| Bits.Or56 | breader.c:177-202 | OR with 56 keeps the odd bits of the count and adds as many whole bytes as fit |
| BitReader.StreamByte | breader.c:63-73 | where each bit of a byte stands in the stream, in either byte order |
| BitReader.LoadedComes | breader.c:162-202 | the word loaded at the read position, converted to the byte order, is the stream from there on, with zeros behind its end |
| BitReader.FilledAhead | breader.c:177-202 | ORing loaded bytes in behind the counted bits, again or for the first time, leaves every bit of the lookahead right |
| BitReader.DroppedAhead | breader.c:85-101 | shifting bits out leaves the lookahead right for the later position |
| BitReader.PeekedReads | breader.c:63-83 | the bits peeked at are the number formed by the next bits of the stream |
| BitReader.SwappedAhead | breader.c:54-61 | at a byte boundary swapping the bytes turns the lookahead into that of the other byte order |
| BitReader.SwapNeedsByteBoundary | breader.c:54-61 | swapping and then skipping some of the bits ahead is right for every stream and lookahead exactly at a byte boundary |
| BitReader.MidByteSwap | breader.c:54-61 | in the middle of a byte it fails on a stream of ones, for either byte order and whatever is skipped |
| BitReader.Reader.constructor | breader.c:40-52 | a new reader is at position 0 and right |
| BitReader.Reader.SetBo | breader.c:54-61 | the bytes of the lookahead are swapped if the order changes; it stays right if it does not or at a byte boundary |
| BitReader.Reader.Peek | breader.c:63-83 | peeking gives the number formed by the next bits in the current byte order if the lookahead is right |
| BitReader.Reader.Consume | breader.c:85-111 | consuming moves the position by that many bits |
| BitReader.Reader.Refill | breader.c:169-220 | a refill keeps the position and brings at least 56 bits or all that are left |
| BitReader.Reader.ConsumeChecked | breader.c:113-160 | the position becomes the target or the end, whichever comes first; skipping past the lookahead makes it right whatever it held |
| BitReader.Reader.Align | breader.c:227-252 | the position becomes the next multiple of the alignment or the end |
| BitReader.Reader.ByteAligned | breader.c:222-225 | true exactly at a byte boundary |
| BitReader.Reader.BitsRemaining | breader.c:254-257 | the bits between the position and the end |
| BitReader.Reader.ReadBits | breader.c:274-286 | reading gives the next bits if there are enough, and moves past them |
| BitReader.Reader.ReadBytes | breader.c:293-303 | succeeds exactly if the bytes are there, and moves past them |
| BitReader.Reader.Seek | breader.c:305-331 | each of the three origins leads to a byte or to the end, never past it, with an empty lookahead |
| BitReader.RoundUpLeast | breader.c:227-252 | rounding up gives the least multiple of the alignment that is not smaller |
| BitReader.RoundUpIsMasked | breader.c:227-233 | the masked sum is that multiple for every power of two |
| Words.ReverseBits | decoder.c:300-313 | the loop computes the word with its low bits in opposite order and zeros above them |
| Words.ReverseInvolution | decoder.c:300-313 | reversing a word of that length twice gives it back |
| Words.SextValue | decoder.c:451-459 | sign extension gives the two's-complement value |
| FldDecode.JoinedReads | decoder.c:325-336 | joining the two parts of a split read gives the number formed by all its bits |
| FldDecode.FieldOfReads | decoder.c:396-400 | with the reversal where the bit order needs it, the bits read are the field's number |
| FldDecode.Decoder.DoAlign | decoder.c:268-295 | aligning fails exactly if it goes past the content of the packet |
| FldDecode.Decoder.ReadUpTo64 | decoder.c:366-394 | up to 64 bits are read whatever the refills bring, exactly if the data has them |
| FldDecode.Decoder.FxdLenDecode | decoder.c:338-415 | succeeds exactly if content, data and byte order allow; bit i of the value, counted from the least significant, is stream bit i of the field if its bit order is first-to-last and bit i from its end if it is last-to-first, provided the byte order is the reader's, or at a byte boundary, or aligning skips the whole lookahead |
| FldDecode.MidByteField | decoder.c:346-358 | otherwise half of the bits may come from another byte without any error: an eight-bit field after a four-bit one of the other order is right exactly if the bytes happen to agree |
| FldDecode.MidByteFieldFails | decoder.c:346-358 | the bytes AB CD EF give such a field another value than the stream has |
| FldOrder.FxdLenValueBits | decoder.c:451-513 | what a fixed-length field holds is the number of its bits, each where the bit order puts it in the stream: in two's complement if signed, 0 or 1 if boolean |
| FldOrder.WholeBytesField | decoder.c:320-323 | a field of whole bytes at a byte boundary is read as the base-256 number of its bytes, most significant first for big endian with last-to-first bits and least significant first for little endian with first-to-last bits |
| FldOrder.WholeBytesValue | decoder.c:451-513 | so is the value that such a field is given |
| FldOrder.TwoBytes | decoder.c:396-400 | the bytes 12 34 are 0x1234 in big and 0x3412 in little endian, each with its default bit order |
| Leb128.EncodedValue | decoder.c:553-599 | an encoding of m groups is read back as m groups with the value encoded |
| Leb128.UnsignedRoundTrip | decoder.c:601-616 | decoding any unsigned encoding gives the value modulo 2^64 |
| Leb128.SignedRoundTrip | decoder.c:618-632 | decoding and sign-extending a signed encoding that fits 64 bits gives the value |
| Leb128.SignedRoundTripTen | decoder.c:618-632 | any signed value in ten groups comes back modulo 2^64 as a 64-bit integer |
| FldDecode.Decoder.ReadGroups | decoder.c:566-592 | a refill's groups are collected in order, whatever number of them it brings and however many came before |
| FldDecode.Decoder.VarLenIntDecode | decoder.c:553-599 | succeeds exactly if the encoding ends within data and content, consumes exactly its bytes and, for up to ten groups, gives its payload cut to 64 bits |
| FldOrder.GroupsEnd | decoder.c:566-592 | an encoding of m groups is m bytes of which exactly the last is below 128 |
| FldOrder.VarLenValueIs | decoder.c:601-632 | a variable-length field holds the base-128 number of the low seven bits of its bytes, least significant first, cut to 64 bits |
| Clock.UpdatedIsNext | decoder.c:912-919 | the update rule gives the least value from the old one on with the low bits read |
| Clock.FixedLengthClock | decoder.c:895-920 | for a fixed-length field the result is that value exactly when it fits 64 bits |
| Clock.UpdateSteps | decoder.c:895-920 | whatever the field and the reading, the value becomes the first of b + v and b + v + m that is not before the old one, b being the last multiple of the period m, modulo 2^64; a field of another class leaves it |
| Clock.Recovers | decoder.c:895-920 | a reading recovers the true time exactly when less than one period has passed |
| Clock.PacketTimesRecovered | decoder.c:895-920 | all event times of a packet are recovered exactly when no two neighbours are a period apart |
| Clock.ClocksNeverDecrease | decoder.c:895-920 | the clock values of a packet never decrease and each ends in the bits read |
| Clock.VariableLengthClock | decoder.c:905-907 | for a variable-length field, whose groups are taken for bits, the exact condition under which the update is right |
| Clock.VariableLengthClockRunsAhead | decoder.c:905-907 | a reading for which it is wrong |
| Clock.NsExact | metadata.c:420-430 | the conversion is the whole second offset plus the cycles rounded down exactly when the product for the part below a second fits 64 bits; if already the sum of clock value and offset does not, exactly when a cycle is a whole number of nanoseconds |
| Clock.NsInexact | metadata.c:420-430 | a clock of 19 GHz for which it is not |
| Clock.NsMonotone | metadata.c:420-430 | up to 18.4 GHz later clock values give later or equal times |
| Clock.TrueNsIsFloor | metadata.c:420-430 | the exact value is the whole number of nanoseconds in all cycles since the origin, second and cycle offset included |
| FldLocs.MemberIndex | decoder.c:96-106 | the first member of that name, if there is one |
| FldLocs.LocatedIsFinished | decoder.c:138-241 | whatever a location denotes is a boolean or integer that was finished before, from bits already passed, and not the asking field |
| FldLocs.UnfinishedIsNotFound | decoder.c:138-241 | a location of a field that is not finished, the asking field or a later one, never resolves to it |
| FldLocs.AbortsOnlyAtOddElement | decoder.c:96-106 | the assertion that a value is a structure fails only if an array being decoded has an element that is none |
| FldPaths.DenotedLeads | decoder.c:138-241 | a location denotes a field exactly if its path leads there from its origin: a name to the first member of that name, no name to the containing structure, an array to its element being decoded, in turn; the code's assertion fails exactly if a name is to be looked up in something that is no structure |
| FldPaths.LengthOfIsLength | decoder.c:108-135 | the length is the one told or that of the unsigned field to which the path leads, and each error says what the path comes to instead |
| FldPaths.SelectorOfIsSelector | decoder.c:1000-1020 | the selector is the field to which the path leads |
| FldParse.Selected | decoder.c:1073-1088 | the option left selected is the last that has the selector's value |
| FldTree.BuiltStays | decoder.c:1126-1218 | a complete value stays complete while other fields are decoded |
| FldValues.FldStreamIsField | decoder.c:338-415 | the bits used for a field's value here are those of the fixed-length decoding |
| FldValues.FxdLenOfField | decoder.c:451-513 | what the code makes of the word read for a fixed-length field is the number in the stream, signed or not |
| FldValues.VarLenOfPayload | decoder.c:601-632 | so is what it makes of a variable-length one, of up to 64 bits |
| FldTree.TreeDecoder.Locate | decoder.c:138-241 | the loop follows the procedure of the specification step by step; what it finds is the finished field to which the path leads, and it finds none, or meets the code's assertion, exactly if the path leads nowhere or strays |
| FldTree.TreeDecoder.GetLength | decoder.c:108-135 | a length is found exactly if it is static or the path of the location leads to an unsigned field, whose value it is; each error tells what the path comes to |
| FldTree.TreeDecoder.DecodeFxdLen | decoder.c:417-513 | succeeds exactly if content, data and byte order allow, from the same start and to the same end; the field holds the number in the stream under the condition of FxdLenDecode |
| FldTree.TreeDecoder.DecodeVarLen | decoder.c:601-632 | the same for variable-length fields: a faithful read succeeds exactly if the encoding ends within data and content |
| FldTree.TreeDecoder.DecodeBytes | decoder.c:709-893 | succeeds exactly if the length is known and so many bytes from the next byte boundary on are in content and data, and ends behind them |
| FldTree.TreeDecoder.DecodeNullTermStr | decoder.c:662-701 | a string of one-byte units decodes exactly if a zero byte follows within data and content, and ends behind the first one |
| FldTree.TreeDecoder.DecodeStruct | decoder.c:1126-1172 | a decoded structure has every member complete and ends within the content; nothing but it and its parts changes; it decodes exactly when, and to what, decoding member after member does |
| FldTree.TreeDecoder.DecodeArr | decoder.c:1174-1244 | the same for arrays, with as many elements as the length found |
| FldTree.TreeDecoder.DecodeOptional | decoder.c:1000-1054 | the field is there exactly if its selector, finished before, says so; left out it takes no bits and always decodes |
| FldTree.TreeDecoder.SelectOpt | decoder.c:1073-1088 | the loop over the options selects the last that has the value |
| FldTree.TreeDecoder.DecodeVariant | decoder.c:1056-1107 | the value is complete for the last option that has the value of the selector, finished before; without such an option it fails |
| FldTree.TreeDecoder.Decode | decoder.c:1254-1301 | a field of any class that decodes is complete and ends within the content, decoding changes only it and fields allocated meanwhile, and with one byte order throughout all integers are those of the stream; success, error code, fields, position and byte orders are those of a function of data, position, byte orders and fields, where that is definite |
| FldTree.TreeDecoder.InitEvent | event.c:32-41 | the four fields of an event are reset, and the packet's are kept |
| FldTree.TreeDecoder.DecodeEvent | decoder.c:1313-1369 | a decoded event has every part that the classes ask for, of the event class that the id in its header has, and ends within the content; its outcome is a function of the state before in the same way |
| FldTree.TreeDecoder.DecodeEvents | decoder.c:1455-1467 | all events of a packet, any number of them, end one behind the other within its content; how many decode and which error stops them is a function of the state before |
| FldTree.TreeDecoder.FinishPacket | decoder.c:1468-1474 | the skip leads to the end of the packet or of the data, whichever comes first, and to the end of the data if the reader is already behind the packet |
| FldTree.TreeDecoder.DecodePacket | decoder.c:1442-1476 | finishing a packet of known lengths leaves the reader at its end or at that of the data, wherever its events ended; it fails exactly if one of its events does |
| FldLaws.ParseMoves | decoder.c:1254-1301 | decoding only moves on, and never past the content or the data |
| FldLaws.ContentCutsOff | decoder.c:1254-1301 | a longer content changes nothing of a field that decodes, and with a shorter one it fails exactly if it ends behind that |
| FldLaws.OneOrderIsSure | decoder.c:338-415 | a class whose integers have one byte order has a definite outcome wherever the reader has that order or is at a byte boundary, if no encoding has more than ten groups |
| FldLaws.OneOrderEventIsSure | decoder.c:1313-1369 | so has every event, and the reader is then as ready for the next one |
| FldLayout.AlignReqIs | fld_cls.c:605-657 | for powers of two the alignment required of a class is that of the positions at which it may start; an array may start where its minimum alignment and its elements allow |
| FldLayout.StructOf | fld_cls.c:1580-1594 | the alignment calculated for a structure is that of the positions where its minimum alignment and every member allow a start |
| FldLayout.StartIsFirst | decoder.c:268-295 | a field starts at the first position from the old one on that its class allows, or at the end of the data |
| FldLayout.ParseIsLaid | decoder.c:1126-1301 | a field that decodes is held by the bits from the old position to the new: every leaf at the first position its class allows behind the end of the one before it, with its type and the value of its bits, a structure's members by name and in order, an array's elements as many as its length, an optional field exactly if its selector says so, a variant as the last option with the selector's value; nothing else known before changes |
| FldLayout.HoldsStays | decoder.c:1126-1301 | what is held stays held while other fields are decoded |
| FldLayout.ParseEventIsLaid | decoder.c:1313-1369 | the header, common context, specific context and payload of an event that decodes lie one behind another, each in the root that locations know it by, and the header's fields tell the event class |
| FldLayout.ParseEventsAreLaid | decoder.c:1455-1467 | the events of a packet lie one behind another, each begun in content and data, until the buffer is full or one of these ends or one fails |
| FldFaults.FailsForCause | decoder.c:1254-1301 | a field that fails has a place in it where the error is true: bits beyond content or data, another byte order in the middle of a byte, a path that leads nowhere or strays, a selector or length of a wrong type, or a selector without ranges or without an option for its value |
| FldFaults.EventFailsForCause | decoder.c:1313-1369 | an event fails for such a fault in one of its parts or because no event class has the id in its header |
| Pipeline.HdrLengths | decoder.c:1374-1440 | a packet is what its header tells: its lengths, one that is not told being the other, its end time, and where its events begin; it is refused exactly if its header is or tells more content than there is packet |
| PktReading.RunReads | decoder.c:1442-1538 | decoding that halts has yielded the events of the packets that lie one behind another from the start on, each event read where the one before it ends within content and data, and it halts where the data end, at a packet without events, or at what fails |
| Pipeline.HaltsOnce | decoder.c:1509-1538 | decoding that has ended or failed stays so with the same events |
| Pipeline.Halts | decoder.c:1455-1467 | if every event takes at least one bit decoding ends, from anywhere and within three steps a bit |
| Pipeline.NeverHalts | decoder.c:1455-1467 | with an event that takes none it yields that event for ever |
| Pipeline.Decoder.constructor | decoder.c:1478-1507 | a new decoder is before the first packet |
| Pipeline.Decoder.DecodeHdr | decoder.c:1374-1440 | starting a packet is one step of the decoding; told lengths and the told end time stand, a length that is not told is the other, content longer than the whole is refused, and decoding goes on where the header ends |
| Pipeline.Decoder.DecodeEvents | decoder.c:1455-1467 | the loop yields the next events of the packet until it ends, fails or the buffer is full |
| Pipeline.Decoder.DecodePkt | decoder.c:1442-1476 | one call goes on where the last one stopped, within one packet |
| Pipeline.Decoder.LeavePacket | decoder.c:1468-1474 | a packet of known length is left for its end or that of the data, whichever comes first |
| Pipeline.PacketLeft | decoder.c:1468-1474 | where decoding goes on behind a packet, with the 64-bit wrap-around of the skip |
| Pipeline.EmptyPacketEnds | decoder.c:1509-1538 | a packet without events is taken for the end of the stream, whatever comes behind it |
| Pipeline.Decoder.Decode | decoder.c:1509-1538 | events and an error never come together; a batch is what decoding without batches yields next, and an error is told when that fails; a batch that leaves events in its packet is full |
| Pipeline.Collect | decoder.c:1509-1538 | for every capacity the batches up to the first empty one or error are exactly what decoding without batches yields, with the same outcome, whenever that ends at all |
| Pipeline.TargetIsEnd | decoder.c:1566-1572 | skipping a packet unread leads where decoding it leads exactly if it ends on a whole byte or with the data, and behind its events |
| Pipeline.SkipIsExact | decoder.c:1563-1573 | jumping over a packet whose header tells an end before the time sought changes nothing of what a seek finds |
| Pipeline.Decoder.Scan | decoder.c:1576-1595 | the inner loops find the first event at the time sought or later, or leave the decoder after the packet, also one without events |
| Pipeline.Decoder.Seek | decoder.c:1546-1599 | if what comes before the first event at the time meets the conditions, among them that no event is later than the end its packet's header tells, what is left is exactly the events from that one on, behind packets without events too |
| Pipeline.CollectFrom | decoder.c:1546-1599 | under the same conditions seeking and then decoding to the end, with any capacity, gives exactly these, and if no packet without events comes before them the stream's events from the first one at the time on |
| Pipeline.SoughtIsRest | decoder.c:1546-1599 | what a seek finds is what decoding finds at the time or later, unless a packet without events comes first, where decoding ends |
| Pipeline.SeekIsExact | decoder.c:1546-1599 | it is so exactly if no such packet comes first or nothing is found behind it |
| Pipeline.EmptyPacketPassed | decoder.c:1558-1596 | two packets of which decoding yields nothing and a seek finds the event of the second |
| Pipeline.SeekHalts | decoder.c:1558-1596 | if every header and event takes at least one bit a seek ends |
| Pipeline.SeekNeverHalts | decoder.c:1558-1596 | with a packet that has neither header nor events nor length it goes on for ever |
| PrioQueue.SwapUp | prio_queue.h:66-80 | swapping with the parent moves the one broken link up |
| PrioQueue.SwapDown | prio_queue.h:92-116 | swapping with the smaller child moves the broken links down |
| PrioQueue.RootIsLeastOfAll | prio_queue.h:132-136 | the root of a heap has the least key |
| PrioQueue.Shrunk | prio_queue.h:120-128 | moving the last node to the root keeps all but the root and breaks only the links below it |
| PrioQueue.PrioQueue.BottomUpFixHeap | prio_queue.h:66-80 | ends with a heap of the same nodes |
| PrioQueue.PrioQueue.TopDownFixHeap | prio_queue.h:92-116 | ends with a heap of the same nodes |
| PrioQueue.PrioQueue.PushUnchecked | prio_queue.h:84-90 | a heap of the old nodes and the new one |
| PrioQueue.PrioQueue.PopUnchecked | prio_queue.h:120-128 | removes one node of least key and nothing else |
| PrioQueue.PrioQueue.PeekUnchecked | prio_queue.h:132-136 | gives a node of least key |
| Events.DropBeforeSorted | event_generator.h:52-65 | of time-sorted events those from a time on are a suffix |
| Events.StreamYields | event_generator.h:52-65 | a generator's stream is the events of its batches, in order, up to the first empty one, error or end, and its fate is which of these comes |
| Muxer.QueueHasRoom | muxer.c:153-158 | while a generator has nothing queued the queue is not full |
| Muxer.RefilledKeeps | muxer.c:142-163 | a generator's new batch loses, repeats and reorders nothing |
| Muxer.AdvancedInOrder | muxer.c:192-198 | the event of a least node precedes everything left, so the output stays in time order |
| Muxer.PutOutKeeps | muxer.c:192-219 | putting an event out keeps conservation, order and what the queue holds |
| Muxer.OutputIsParts | muxer.c:165-229 | the output has as many events as the generators' parts of it together |
| Muxer.OutputAt | muxer.c:165-229 | the output is what the log puts out, event by event in its order, and a generator's part is what it puts out of that |
| Muxer.Muxer.constructor | muxer.c:70-125 | a new muxer is fresh, with default capacity for 0 |
| Muxer.Muxer.PushFreshEvsToPq | muxer.c:142-163 | calls the generator once and queues its first event; an error is passed on |
| Muxer.Muxer.PutOut | muxer.c:191-219 | puts the earliest event out, and queues its generator again or marks it as pending |
| Muxer.Muxer.Bootstrap | muxer.c:169-175 | calls each generator once, one after the other, up to the first that fails, and no other |
| Muxer.Muxer.Fill | muxer.c:185-219 | fills the buffer up to its capacity or until a generator's buffer is used up or nothing is left, calling no generator |
| Muxer.Muxer.Mux | muxer.c:165-229 | all generator calls come before the first event put out; done exactly with an empty batch; an error is the one with which the stream of the generator called last ends, and sticks; it stops putting out only when its buffer is full, a generator's is used up, or nothing is left |
| Muxer.Muxer.NothingLeft | muxer.c:221-223 | with an empty queue and none pending every event of every generator has been put out and every stream has ended well |
| Muxer.Muxer.Seek | muxer.c:246-260 | a seek succeeds exactly if every generator's does, and then the muxer is fresh |
| Muxer.Drain | muxer.c:165-229 | a run ends; it succeeds exactly if no generator's stream ends in an error, and then gives every event of every generator once, in stream order and, for sorted streams, in time order; else it fails with an error that ends a stream, after a beginning of each |
| HashMap.SuccIsMasked | crust/map.h:180 | masking with the capacity less one is going round |
| HashMap.NotFurther | crust/map.h:168-183 | a key is not beyond the first free slot from its home on |
| HashMap.ProbeIsExact | crust/map.h:168-183 | if the comparison tells a key from those in the map, probing finds it exactly if the map has it, with its value |
| HashMap.Placed | crust/map.h:191-208 | an entry put in the first free slot keeps every entry reachable from its home, and adds exactly itself |
| HashMap.FreeSlot | crust/map.h:196-199 | a map that is not full has a free slot, so the probe loop ends |
| HashMap.MovedAll | crust/map.h:154-161 | moving every slot's entry moves the whole map |
| HashMap.MapIsPow2Exact | crust/map_util.h:82-85 | the bit trick finds exactly the powers of two |
| HashMap.Create | crust/map.h:93-110 | a map is made exactly for a power-of-two capacity that memory is granted for, and is empty |
| HashMap.Map.InitCap | crust/map.h:93-110 | a new map of a power-of-two capacity is empty |
| HashMap.Map.ProbeFor | crust/map.h:168-183 | the loop probes slot after slot and ends after one round |
| HashMap.Map.Find | crust/map.h:168-183 | find gives exactly the stored value, or nothing, for such a key |
| HashMap.Map.Contains | crust/map.h:185-189 | true for every key that the map has, and for such a key exactly then |
| HashMap.Map.InsertHashUnchk | crust/map.h:191-208 | adds the entry whether or not a growth it sets off succeeds, also when that growth sets off another; it grows exactly if half of the slots are then in use and memory for twice as many can be had |
| HashMap.Map.MoveTo | crust/map.h:154-161 | the new map gets exactly the entries of the old one |
| HashMap.Map.Grow | crust/map.h:142-166 | the map stays the same, with at least twice the capacity if memory was granted and no change otherwise |
| HashMap.Map.Insert | crust/map.h:210-219 | an insertion is refused exactly when every slot is in use, and else adds the entry and grows under the same condition |
| HashMap.Uint64CmpIsZero | crust/map_util.h:62-65 | the comparison of 64-bit ids is zero exactly if their low 32 bits agree |
| HashMap.AbsentId | metadata_int.h:110-116 | an absent id is not found if no id in the map has its low 32 bits, and in maps of up to 2^32 slots exactly then |
| HashMap.ConfusedIds | crust/map_util.h:62-65 | id 2^32 + 1 is found in a map that holds only id 1 |
| HashMap.FindId | decoder.c:1333-1340 | a lookup by id is right unless another id of the map has the same low 32 bits, and for an id in a map with distinct low halves always |
| HashMap.Register | metadata.c:1108-1132 | asking before inserting keeps the low halves of the ids distinct, and refuses exactly the ids whose low half is taken, and those that find every slot in use |
| Filter.DateOfTime | filter.c:80-83 | the date taken from a time is that of its day exactly for times from the origin on and for midnights, and else that of the next day |
| Filter.DateBeforeOrigin | filter.c:80-83 | a nanosecond before the origin is taken for the day after it |
| Filter.AppliedTakesDates | filter.c:80-91 | the range that applies to a stream has both bounds dated by its first event in that way, or as they were given |
| Filter.InRangeIsMiddle | filter.c:95-141 | of a sorted stream what is left from the begin on and up to the end is what lies in the range |
| Filter.InRangeIsStretch | filter.c:95-141 | what lies in the range is a stretch of the stream, everything before it earlier and everything behind it later |
| Filter.NextPart | filter.c:121-132 | what the generator owes up to the end begins with what trimming leaves of its next batch |
| Filter.ReadFate | filter.c:95-141 | reading up to the end of the range fails only as reading on would, and escapes a failure only behind an event past the end |
| Filter.Filter.EnsureRangeHasDates | filter.c:62-93 | a bound with a date stays; one without keeps its time of day and moves to the day of the first event, exactly if that is not before the origin or at a midnight, else to the day after; fails exactly if dates are missing and the generator answers an error, with that |
| Filter.Filter.Seek | filter.c:150-173 | after a seek the filter owes the events from that time on that lie in the range; it fails exactly if the generator does when asked for dates or to seek |
| Filter.Filter.Trim | filter.c:121-130 | the batch up to the end; an end of INT64_MAX cuts nothing off |
| Filter.Filter.Filter | filter.c:95-141 | a batch is the next part of what is owed, an empty one comes exactly when nothing is, and the range has its dates from then on; an error is the next one that the generator answers to what the filter still asks of it |
| Filter.Drain | filter.c:95-141 | all batches together are exactly the events in the range with its missing dates filled in, unless the generator answers an error to what has to be asked for that; then it fails with that error after a beginning of them |
| Trace.Record | event_generator.h:35-50 | a decoder's batches are a generator's answers: their stream is the decoding without batches, and they end or fail as it does |
| Trace.RecordFrom | decoder.c:1546-1599 | what a decoder answers to a seek is the script of its events from that time on, which ends as its stream does, or at once the error with which it ends |
| Trace.RecordMuxer | muxer.c:165-229 | so are the muxer's: their stream is its output, and they end well exactly if every generator's do |
| Trace.CutOutput | filter.c:121-132 | cutting a sorted merge off behind a time cuts its output off there |
| Trace.CutFrom | filter.c:121-132 | and the part of every stream in it |
| Trace.EnoughMerged | muxer.c:165-229 | a merge of sorted streams that has put out an event past a time has put out all that each stream has up to it |
| Trace.MergedRange | filter.c:95-141 | merging what each stream has from a time on and cutting that off at another selects exactly the events between, of every stream, also if the merge fails behind the cut |
| Trace.MergedPart | filter.c:95-141 | and any number of its first events is a beginning of that selection |
| Trace.Range | actf.c:457-477 | decoders that seek, the merge and the filter together give exactly the events of all streams that lie in the range, in time order, if no decoding fails or none before the range is over; else a beginning of them and the error of a decoding that fails |

## Left out

- Addresses: nodes, fields and slots are indices into a pool or an array; aliasing beyond that is not modelled.
- Machine widths: sizes, positions and counts are unbounded unless a width matters to a property; it does in the clock, seek, map and comparison arithmetic, where every operation has the width C gives it.
- Memory: allocation succeeds, except in growing and creating a hash map, where it may fail for any capacity.
- Mappings.Index.constructor: `qsort` is not modelled; what it leaves is a parameter that holds the same ranges, and the index is exact if that is sorted by a comparison that orders the set rightly (`Mappings.WhenOrders` says when).
- Mappings.SameNames: the two ways of looking up may name the mappings in different orders, so the first names may differ.
- HashMap.Map.Insert: keys are new to the map, as every caller in the library makes sure by asking first (`HashMap.Register`).
- HashMap.Map.InsertHashUnchk: keys are new to the map, for the same reason.
- HashMap.AbsentId: leaves aside, for the exact condition, the largest 64-bit id, whose hash is altered to differ from the mark of an empty slot, and maps of more than 2^32 slots.
- FldDecode.Decoder.VarLenIntDecode: from the eleventh group on the shift is by more than 63, which C leaves undefined, so nothing is said of the value then.
- FldTree.TreeDecoder.Locate: an array on the path has the length found when its decoding started, where the code locates that length again for every location that passes through the array.
- FldFaults.FailsForCause: says where in the field something is at fault, and in which state that was met, but not by which steps decoding got there.
- FldTree.TreeDecoder.DecodeNullTermStr: strings are of one-byte units; the search for a wider terminator steps past an odd remainder.
- FldTree.TreeDecoder.DecodeBytes: neither looks for a terminator in a string nor for a wrong remainder of wider units.
- FldTree.TreeDecoder.DecodeEvent: the field that has the role of the event class id is a parameter, and ids are looked up in a map of the specification, which `HashMap.FindId` refines.
- FldTree.TreeDecoder.DecodePacket: the packet's header and context are decoded before, and its lengths are known then.
- Pipeline.Decoder.Seek: behind an event that fails to decode before the time sought, the code goes on decoding headers wherever in that event the reader was left, which is not part of this model.
- Pipeline.CollectFrom: under the same conditions.
- Trace.Range: for ranges with dates; a range without takes them from the first event as `Filter.Drain` says. A decoding that fails within the range may or may not be met before the filter has seen an event past it, which depends on the capacities.
- Filter.Filter.EnsureRangeHasDates: adding a date to a bound close to the ends of the 64-bit range, which C leaves undefined, does not wrap here.
- Field roles other than packet lengths, timestamps and event class ids, and floating-point values.
- Deletion from the hash map: it does not keep entries reachable and the library does not use it.
- Signed interval trees with negative upper bounds, signed mappings.
- JSON parsing and the construction of metadata and field classes, which depend on json-c; files, printing, the command line and error texts.
- Point tests on ranges, bit map flags and the vector, list and arena containers, which would only add easy members.
