# Proofs about the bus router's support code

A model, in Dafny, of the self-contained logic under the bus router: its XML library, its timer queue, its
tag/value streams, its MD5 and its generated message codecs. `dafny verify dfyconfig.toml` checks everything.

Code that changes things step by step is modelled as classes and loops and proved against functions on
values; what the code is for is then proved about those functions, as lemmas.

| files | what they model |
|---|---|
| `TimeOrder`, `Multimap`, `HeapSpec`, `MinHeap`, `MinHeapQueue` | the array heap with its position index, and the timer queue that puts a handler map on top |
| `Bytes`, `DFixSpec`, `DFixAccepts`, `DFixStream`, `DFixReparse` | the DFix writer, which fills a buffer in place, the scanning reader with the exact set of buffers it accepts, and one behind the other |
| `Md5Words`, `Md5Compress`, `Md5Spec`, `Md5`, `Md5Vectors` | the unrolled compression and the streaming context, against RFC 1321, and two of its test values |
| `PbWire`, `PbMessages`, `PbBytes`, `PbStream`, `PbBusHead`, `PbLoginReq`, `PbLoginRsp` | the Protocol Buffers wire format ("Encoding"), the messages as values and as bytes, and the generated parse loops, serializers, sizes and merges |
| `XmlLex`, `XmlParse`, `XmlParser` | TinyXML's parser in byte encoding: as functions, and as the pointer loops that compute them |
| `XmlSyntax`, `XmlReading`, `XmlFaults` | well formed XML in any layout and what it stands for, that it is read as that, and which error a fault leaves |
| `XmlPrint`, `XmlPrinted`, `XmlTextRoundTrip`, `XmlRoundTrip`, `XmlReparse` | the printer, its text letter by letter, and that printing and parsing undo each other |
| `XmlDom`, `XmlBuild`, `XmlAttributes` | the child lists, how the parser links what it parses, and the attribute ring, rewritten in place |
| `XmlNewlines`, `XmlCursor`, `XmlUtf8` | the newline pass of LoadFile, row and column, numeric references in UTF-8 |
| `Concat` | one law about sequences that several files need |

How some things are shown:

- A C pointer into a text is a position in the buffer in `XmlParser`, and what remains of the text in the
  functions of `XmlLex` and `XmlParse`. A buffer holds no terminator before its end.
- A message is absent or present field by field; the has-bits of the generated classes are a set of field numbers.
- A `goto` into another case of the tag switch is a call of the method that holds that case.
- The multimap of the heap is its list of pairs in key order, so that an insertion goes behind equal keys.
- Counter words of MD5 are numbers with the wrap written out, and 32-bit vectors where the source shifts and joins
  them; the block words are such vectors.
- `DeleteAtOrder` corrects the expectation that deleting from the heap keeps it a heap: the code only sifts
  down, and the exact condition is proved together with an example that fails it.
- `OrderOfMoments` does the same for the timer order: end times with a million microseconds or more, as the reactor
  makes them when it adds a timeout without a carry, can come up too early.
- `AppendKeepsTheList` does the same for `LinkEndChild`, whose own assertion lets a node through whose parent is
  already this node: the list survives exactly when it does not hold the node yet. The parser sets the parent of a
  node before it links it, and `XmlBuild` follows it from the parsed values to the linked nodes.

## Model

| member | source | states |
|---|---|---|
| HeapSpec.SiftUpRestoresOrder | bus_router/include/yt/util/minheap.h:175-206 | sifting up repairs a heap that is wrong only above one index |
| HeapSpec.SiftDownOrder | bus_router/include/yt/util/minheap.h:207-245 | sifting down repairs every edge below the vacated index; only the edge above it may stay wrong |
| HeapSpec.InsertCorrect | bus_router/include/yt/util/minheap.h:29-53 | Insert adds exactly one copy of the value and keeps a heap a heap |
| HeapSpec.RemoveMinCorrect | bus_router/include/yt/util/minheap.h:55-82 | on any array RemoveMin takes out exactly one copy of the first element; on a heap that element is a least one and what is left is a heap |
| HeapSpec.DeleteAtPermutes | bus_router/include/yt/util/minheap.h:84-110 | Del removes exactly one copy of the value and nothing else, heap or not |
| HeapSpec.DeleteAtOrder | bus_router/include/yt/util/minheap.h:84-110 | after Del on a heap only the edge above the vacated index can be wrong, and the order is complete if and only if the moved last element is not smaller than the parent there (MoverFits, a test before the call) |
| HeapSpec.DeleteKeepsOrderWithinSubtree | bus_router/include/yt/util/minheap.h:84-110 | the order is complete when the moved element comes from the subtree of that parent |
| HeapSpec.DeleteCanBreakOrder | bus_router/include/yt/util/minheap.h:84-110 | full heap order after Del is false of the code: a heap that seven inserts give and one deletion spoils |
| HeapSpec.BrokenHeapDelaysLeast | bus_router/include/yt/util/minheap.h:84-110 | from the heap that a deletion spoiled, removals return 1, 2 and 50 while 3 is still queued |
| HeapSpec.SpoilableIsFilled | bus_router/include/yt/util/minheap.h:29-53 | inserting the seven values of the example one by one gives exactly this heap |
| HeapSpec.HeapRefinesBag | bus_router/include/yt/util/minheap.h:29-110 | over every run of inserts (refused at MAXSIZE), erasures, removals and clears in which each erasure meets its condition, the array stays a heap and each removal returns a least element of the bag and takes it out once |
| HeapSpec.RunConserves | bus_router/include/yt/util/minheap.h:29-110 | over every run, whatever the order in the array: inserts add, erasures and removals take out exactly one copy, nothing else changes |
| HeapSpec.FillThenDrainSorts | bus_router/include/yt/util/minheap.h:29-82 | inserting any values and then removing all gives the values that MAXSIZE let in, in ascending order |
| MinHeapModel.IndexIsPositions | bus_router/include/yt/util/minheap.h:161-245 | an exact index is, as a multiset of pairs, the list of (heap[i], i): no stale and no missing entry, duplicates included |
| MinHeapModel.MoveIntoHole | bus_router/include/yt/util/minheap.h:186-195 | one step of a sift loop (move a value, erase its pair, insert the new one) moves the hole in the index with the hole in the array |
| MinHeapModel.MinHeap.Search | bus_router/include/yt/util/minheap.h:161-174 | finds the pair (x, id) in the index whenever it is there |
| MinHeapModel.MinHeap.FilterUp | bus_router/include/yt/util/minheap.h:175-206 | the in-place loop computes SiftUp, and the index, exact but for the start, becomes exact |
| MinHeapModel.MinHeap.FilterDown | bus_router/include/yt/util/minheap.h:207-245 | the in-place loop computes SiftDown, and the index, exact but for the start, becomes exact |
| MinHeapModel.MinHeap.Shrink | bus_router/include/yt/util/minheap.h:151-160 | keeps the contents and a capacity of at least one free slot below the maximum |
| MinHeapModel.MinHeap.MakeRoom | bus_router/include/yt/util/minheap.h:35-46 | growing and then shrinking always leaves a free slot when the heap holds fewer than MAXSIZE values |
| MinHeapModel.MinHeap.Insert | bus_router/include/yt/util/minheap.h:29-53 | fails exactly at MAXSIZE; otherwise the contents become Insert of the contents and the index stays exact |
| MinHeapModel.MinHeap.RemoveMin | bus_router/include/yt/util/minheap.h:55-82 | returns the first element; contents become RemoveMin of the contents and the index stays exact |
| MinHeapModel.MinHeap.Del | bus_router/include/yt/util/minheap.h:84-110 | false with nothing changed if the value is absent; otherwise contents become DeleteAt of one of its positions and the index stays exact |
| MinHeapModel.MinHeap.Clear | bus_router/include/yt/util/minheap.h:126-130 | empties array and index together |
| MinHeapQueueModel.MinHeapQueue.Push | bus_router/include/yt/util/minheapqueue.cpp:7-12 | enters the handler under its end time; heap times and map keys still agree as multisets exactly when the heap was not full; that every heap time has a handler is kept in any case |
| MinHeapQueueModel.MinHeapQueue.Pop | bus_router/include/yt/util/minheapqueue.cpp:14-25 | while every heap time has a handler it never returns null and keeps that; with agreement, an ordered heap and handlers keyed by their own end times it returns a handler whose end time is least among all queued ones, and least in microseconds when every end time has fewer than a million microseconds |
| MinHeapQueueModel.MinHeapQueue.Front | bus_router/include/yt/util/minheapqueue.cpp:27-37 | a handler queued under the first time, never null while every heap time has a handler; under the conditions of Pop one with a least end time, in pairs and in microseconds |
| MinHeapQueueModel.MinHeapQueue.Del | bus_router/include/yt/util/minheapqueue.cpp:39-54 | takes out one copy of the time, from the position the heap's index gives, and the handler's own entry; the heap stays ordered exactly when the time was absent or MoverFits holds there; agreement survives exactly when the handler was queued under its current end time or nothing was; every heap time keeps a handler |
| MinHeapQueueModel.MinHeapQueue.Clear | bus_router/include/yt/util/minheapqueue.cpp:61-65 | empties both and restores agreement |
| MinHeapQueueModel.MinHeapQueue.IsEmpty | bus_router/include/yt/util/minheapqueue.cpp:56-59 | tells whether the heap is empty, and with agreement whether any handler is queued |
| MinHeapQueueModel.AgreeAfterDel | bus_router/include/yt/util/minheapqueue.cpp:39-54 | when erasing a time from the heap and an entry from the map leaves the two multisets equal |
| MinHeapQueueModel.FullHeapStrandsHandler | bus_router/include/yt/util/minheapqueue.cpp:7-12 | a push on a full heap leaves a handler in the map whose time the heap does not have |
| MinHeapQueueModel.ChangedEndtimeStrandsHandler | bus_router/include/yt/util/minheapqueue.cpp:39-54 | deleting a handler whose end time changed while it was queued takes the time of another handler out of the heap |
| MinHeapQueueModel.LeastEndtime | bus_router/include/yt/util/minheapqueue.cpp:14-37 | with agreement and own end times as keys, a handler under a least heap time has a least end time of all queued handlers, also counted in microseconds |
| MinHeapQueueModel.PopKeeps | bus_router/include/yt/util/minheapqueue.cpp:14-25 | what taking one time and one handler under it out of heap and map keeps |
| TimeOrder.LeqIsEarlier | bus_router/include/yt/util/minheapqueue.cpp:9-9 | with fewer than a million microseconds on both sides the order of the pairs is the order of the moments |
| TimeOrder.OrderOfMoments | bus_router/include/yt/util/minheapqueue.cpp:9-9 | for any times the order of two pairs is that of their moments if and only if the microseconds of neither make up for its fewer seconds |
| TimeOrder.UncarriedComesTooEarly | bus_router/include/yt/util/minheapqueue.cpp:9-9 | the order of moments is false of the code for times the reactor can make, which adds microseconds without a carry: 2.4 seconds in front of 2 |
| DFixSpec.AtoiOfDecimal | bus_router/include/yt/util/dfixstream.cpp:113-116 | atoi undoes the decimal text of a length |
| DFixSpec.DecimalLength | bus_router/include/yt/util/dfixstream.cpp:108-112 | the decimal text has at most k digits if and only if the number is below 10^k |
| DFixSpec.ParseTextBack | bus_router/include/yt/util/dfixstream.cpp:58-82 | parsing an encoded text field consumes exactly it and enters its value |
| DFixSpec.ParseRawBack | bus_router/include/yt/util/dfixstream.cpp:83-143 | parsing an encoded raw field with arbitrary data bytes consumes exactly it and enters its value |
| DFixSpec.ParseEncoded | bus_router/include/yt/util/dfixstream.cpp:32-147 | a stream of readable fields is accepted and the map holds, for every tag, the first field added under it |
| DFixSpec.StreamReadsBack | bus_router/include/yt/util/dfixstream.cpp:32-256 | what Flush leaves is accepted by Parse: every tag gives its first-added bytes and type, absent tags fail, L gives the decimal body length |
| DFixReparse.FlushThenGet | bus_router/include/yt/util/dfixstream.cpp:19-256 | Flush, Parse and GetValue one after the other, on the objects: the type and the bytes of the first field added under the tag, the decimal body length under L, nothing under any other tag |
| DFixAccepts.AtoiReads | bus_router/include/yt/util/dfixstream.cpp:113-116 | atoi is white space, an optional sign and the value of the digits up to the first byte that is none |
| DFixAccepts.NextIsField | bus_router/include/yt/util/dfixstream.cpp:40-143 | a field that is read stands there byte by byte: tag, equals sign, data up to SOH; or R, tag, length, SOH, tag, as many bytes as the length says, SOH |
| DFixAccepts.FieldIsNext | bus_router/include/yt/util/dfixstream.cpp:40-143 | and any such field is read, entered under its tag if the tag is new, and left behind its SOH |
| DFixAccepts.EndExactly | bus_router/include/yt/util/dfixstream.cpp:40-61 | the parse ends well at a position if and only if no equals sign follows or only a text that no SOH ends |
| DFixAccepts.AcceptedExactly | bus_router/include/yt/util/dfixstream.cpp:32-147 | a buffer is accepted if and only if it is such fields one behind the other and such an end, and then the map is made of just those fields |
| DFixAccepts.AcceptedIsSound | bus_router/include/yt/util/dfixstream.cpp:32-147 | every entry of an accepted buffer lies between an equals sign and a SOH behind its tag; a text has no SOH inside, and the length text in front of raw data reads as its length |
| DFixAccepts.RawRefused | bus_router/include/yt/util/dfixstream.cpp:103-141 | a raw field with a right head is refused when its length has nine characters, another tag follows, the equals sign is missing or a byte other than SOH stands behind the data; a length that leads outside is told apart |
| DFixAccepts.FirstFieldCounts | bus_router/include/yt/util/dfixstream.cpp:66-82 | of several fields under one tag the first is kept, and no other tag is found |
| DFixAccepts.WrittenBytes | bus_router/include/yt/util/dfixstream.cpp:179-254 | the bytes of a text field, a raw field and a flushed stream, said one by one |
| DFixStream.ReadStream.Parse | bus_router/include/yt/util/dfixstream.cpp:32-147 | the scanning loop computes ParseFields, including every rejection and the data bounds that an earlier field left behind |
| DFixStream.WriteStream.AddText | bus_router/include/yt/util/dfixstream.cpp:175-194 | fails exactly when the field does not fit; otherwise the body grows by the encoded field |
| DFixStream.WriteStream.AddRaw | bus_router/include/yt/util/dfixstream.cpp:195-233 | fails exactly when the field does not fit; otherwise the body grows by the encoded length field and raw field |
| DFixStream.WriteStream.Flush | bus_router/include/yt/util/dfixstream.cpp:234-256 | fails exactly when the length needs nine digits; otherwise the bytes from the header on are the length field and the body, written backwards into the gap |
| DFixStream.WriteStream.Clear | bus_router/include/yt/util/dfixstream.cpp:257-261 | forgets the fields and the header |
| Md5Compress.GetUndoesPut | bus_router/include/yt/util/md5.cpp:26-40 | the little-endian load undoes the store, for every word |
| Md5Compress.PutUndoesGet | bus_router/include/yt/util/md5.cpp:26-40 | the store undoes the load, for every four bytes |
| Md5Compress.RewrittenF | bus_router/include/yt/util/md5.cpp:89-89 | the rewritten F is the F of section 3.4 of RFC 1321 |
| Md5Compress.RewrittenG | bus_router/include/yt/util/md5.cpp:110-110 | the rewritten G is the G of section 3.4 |
| Md5Compress.RotateIsRotateLeft | bus_router/include/yt/util/md5.cpp:77-77 | the shift macro is a left rotation for every shift of the 64 steps |
| Md5Compress.MacroIsStep | bus_router/include/yt/util/md5.cpp:79-82 | one use of the step macro is one step of section 3.4 |
| Md5Compress.FourUses | bus_router/include/yt/util/md5.cpp:84-106 | four uses with the registers renamed are four steps |
| Md5Compress.Process | bus_router/include/yt/util/md5.cpp:56-177 | the 64 unrolled steps with their literal constants compute the compression of section 3.4 for every state and block |
| Md5Spec.FoldAppend | bus_router/include/yt/util/md5.cpp:204-209 | compressing a concatenation of whole blocks is compressing the one part and then the other |
| Md5Spec.AbsorbFill | bus_router/include/yt/util/md5.cpp:194-202 | completing the buffered block is absorbing its missing bytes |
| Md5Spec.AbsorbBlock | bus_router/include/yt/util/md5.cpp:204-209 | processing a block straight from the input is absorbing it |
| Md5Spec.AbsorbPartial | bus_router/include/yt/util/md5.cpp:211-215 | bytes that do not complete a block change the tail only |
| Md5Spec.CounterAdds | bus_router/include/yt/util/md5.cpp:188-192 | the two-word byte counter with its carry counts modulo 2^64 |
| Md5Spec.CounterBits | bus_router/include/yt/util/md5.cpp:232-237 | eight times the byte count, in two words, is the length in bits modulo 2^64, low word first |
| Md5Words.ShiftsAreArithmetic | bus_router/include/yt/util/md5.cpp:232-234 | the shift right by 29 divides the word, the shift left by 3 multiplies it modulo 2^32 |
| Md5Words.OrIsPlus | bus_router/include/yt/util/md5.cpp:232-233 | the bitwise or of the shifted words is the sum of their values because they have no bit in common |
| Md5Spec.ShiftedCounter | bus_router/include/yt/util/md5.cpp:232-237 | the shifted and joined counter words are the two words of the length in bits, for every byte count |
| Md5Spec.PaddedIsWhole | bus_router/include/yt/util/md5.cpp:239-243 | a padded message is a whole number of blocks |
| Md5Spec.LengthInBits | bus_router/include/yt/util/md5.cpp:232-237 | the eight appended bytes are the length in bits modulo 2^64, as two words with the low-order one first, as in section 3.2 |
| Md5.Context.Update | bus_router/include/yt/util/md5.cpp:179-216 | state is the fold over the full blocks of everything passed so far, the buffer its tail, the counter its length, for any chunk |
| Md5.Context.Finish | bus_router/include/yt/util/md5.cpp:226-249 | the digest of the whole message, padded as in sections 3.1 and 3.2 of RFC 1321 |
| Md5.Context.Absorb | bus_router/include/yt/util/md5.cpp:194-215 | fill, block loop and rest together absorb the input, wherever the buffer stands |
| Md5.Context.EncodeLength | bus_router/include/yt/util/md5.cpp:232-237 | shifts and joins the two counter words and stores the eight bytes of the length in bits |
| Md5.DigestOfPieces | bus_router/include/yt/util/md5.cpp:179-249 | however a message is cut into pieces, the digest is that of the whole |
| Md5Vectors.InitBytes | bus_router/include/yt/util/md5.cpp:45-54 | the initial registers are the sixteen bytes of section 3.3 of RFC 1321 |
| Md5Vectors.DigestOfEmpty | bus_router/include/yt/util/md5.cpp:43-249 | the digest of the empty message is the one of section A.5 |
| Md5Vectors.DigestOfAbc | bus_router/include/yt/util/md5.cpp:43-249 | the digest of "abc" is the one of section A.5, followed through all 64 steps |
| PbWire.ReadUndoesEncode | bus_router/src/router/dzhbus.pb.cc:297-299 | a 64-bit varint is read back, whatever follows it |
| PbWire.VarintSizeCorrect | bus_router/src/router/dzhbus.pb.cc:450-452 | the size function gives the length of the varint |
| PbWire.ReadFieldOf | bus_router/src/router/dzhbus.pb.cc:295-364 | one encoded field is read back as that field and the rest of the input |
| PbWire.LoopOfFields | bus_router/src/router/dzhbus.pb.cc:293-370 | the tag loop reads encoded fields one by one and applies them in order |
| PbWire.LoopConcat | bus_router/src/router/dzhbus.pb.cc:293-370 | parsing a concatenation goes on with the second part where the first was complete |
| PbWire.LoopMerges | bus_router/src/router/dzhbus.pb.cc:498-515 | parsing onto a merged message is merging what is parsed, for every message type whose fields commute with merging |
| PbWire.ConcatIsMerge | bus_router/src/router/dzhbus.pb.cc:498-515 | two complete encodings one after the other parse to the merge of the two messages |
| PbMessages.ParseOfSerializedHead | bus_router/src/router/dzhbus.pb.cc:289-440 | parsing a serialized BusHead gives the same message: values, presence bits, unknown fields in order |
| PbMessages.HeadConcatIsMerge | bus_router/src/router/dzhbus.pb.cc:289-515 | for BusHead, concatenation is MergeFrom: the last value wins, unknown fields append |
| PbMessages.ParseOfSerializedInfo | bus_router/src/router/dzhbus.pb.cc:630-728 | parsing a serialized RspInfo gives the same message |
| PbMessages.ParseOfSerializedRsp | bus_router/src/router/dzhbus.pb.cc:1116-1179 | parsing a serialized LoginRsp gives the same message, the embedded RspInfo included |
| PbMessages.RspConcatIsMerge | bus_router/src/router/dzhbus.pb.cc:1116-1224 | for LoginRsp, concatenation is MergeFrom: the embedded message merges recursively |
| PbMessages.ParseOfSerializedReq | src/dzh_bus_interface.pb.cc:931-1002 | parsing a serialized LoginReq gives the same numbers and unknown fields |
| PbMessages.ReqConcatIsMerge | src/dzh_bus_interface.pb.cc:931-1044 | for LoginReq, concatenation is MergeFrom: the repeated field appends |
| PbMessages.ParseOfRuns | src/dzh_bus_interface.pb.cc:938-961 | however the numbers are cut into tagged and packed runs, parsing appends them all in order |
| PbBytes.VarintGroup | bus_router/src/router/dzhbus.pb.cc:406-440 | byte i of a varint holds the i-th group of seven bits, least significant first |
| PbBytes.VarintEnds | bus_router/src/router/dzhbus.pb.cc:406-440 | a varint has no byte to spare, and every byte but the last one has its highest bit set |
| PbBytes.ReadExactly | bus_router/src/router/dzhbus.pb.cc:297-299 | a varint is read if and only if one of the first ten bytes ends it, minimal or not, and gives the lowest 64 bits of its groups |
| PbBytes.FieldBytes | bus_router/src/router/dzhbus.pb.cc:406-440 | the tag byte and the payload of each wire type, for field numbers below 16 |
| PbBytes.HeadBytes | bus_router/src/router/dzhbus.pb.cc:373-440 | a serialized BusHead is tags 8, 18, 26 and 32 in that order in front of what is present, then the unknown fields |
| PbBytes.InfoBytes | bus_router/src/router/dzhbus.pb.cc:684-728 | a serialized RspInfo is tags 8 and 18 in front of what is present, then the unknown fields |
| PbBytes.RspBytes | bus_router/src/router/dzhbus.pb.cc:1151-1179 | a serialized LoginRsp is tag 10, the length and the bytes of the embedded message, then the unknown fields |
| PbBytes.ReqBytes | src/dzh_bus_interface.pb.cc:975-1002 | a serialized LoginReq is tag 8 in front of every number, then the unknown fields |
| PbBytes.HeadLastWins | bus_router/src/router/dzhbus.pb.cc:289-371 | whatever valid fields are parsed, each field of the message holds what its last occurrence says, is absent without one, and everything else is an unknown field, in order |
| PbBytes.InfoLastWins | bus_router/src/router/dzhbus.pb.cc:630-682 | the same for RspInfo |
| PbBytes.RspEmbedsAll | bus_router/src/router/dzhbus.pb.cc:1116-1149 | valid fields parse as a LoginRsp if and only if every embedded RspInfo is whole, and then all embedded messages together are parsed as one |
| PbBytes.ReqInOrder | src/dzh_bus_interface.pb.cc:937-973 | a service number, tagged or packed, between any fields is appended in its place with its lowest 32 bits |
| PbBytes.CutIsNoticed | bus_router/src/router/dzhbus.pb.cc:289-371 | whole fields and a part of another one are never a complete message, of any type |
| PbStream.CodedInputStream.ReadVarint64 | bus_router/src/router/dzhbus.pb.cc:297-299 | the shifting loop reads at most ten bytes and yields the varint modulo 2^64, or fails without moving |
| PbStream.CodedInputStream.ReadTag | bus_router/src/router/dzhbus.pb.cc:293-293 | a tag, or 0 at the end, at a malformed varint and for a tag that is 0 in 32 bits; tells the legitimate end |
| PbStream.CodedInputStream.ExpectTag | bus_router/src/router/dzhbus.pb.cc:305-305 | consumes the tag only if reading a tag would give exactly it |
| PbStream.CodedInputStream.SkipField | bus_router/src/router/dzhbus.pb.cc:363-364 | reads any other field as an unknown one, of every wire type but groups |
| PbStream.WriteVarintToArray | bus_router/src/router/dzhbus.pb.cc:406-440 | writes the varint over the array at the position and changes nothing else |
| PbStream.WriteFieldsToArray | bus_router/src/router/dzhbus.pb.cc:435-438 | writes the fields one after the other over the array and changes nothing else |
| PbStream.FieldsSize | bus_router/src/router/dzhbus.pb.cc:475-479 | the accumulated size of unknown fields is the length of their encoding |
| PbBusHead.BusHead.MergePartialFromCodedStream | bus_router/src/router/dzhbus.pb.cc:289-371 | the loop with its goto fast path accepts exactly what the plain tag loop does, yields the same message and the same end |
| PbBusHead.BusHead.CaseRequestId | bus_router/src/router/dzhbus.pb.cc:295-308 | case 1 and its jump to the next field are the loop from behind the tag |
| PbBusHead.BusHead.ParseServiceName | bus_router/src/router/dzhbus.pb.cc:310-325 | the label reached by switch or goto: both are the loop from behind the tag |
| PbBusHead.BusHead.ParseData | bus_router/src/router/dzhbus.pb.cc:327-339 | the label reached by switch or goto: both are the loop from behind the tag |
| PbBusHead.BusHead.ParseEndFlag | bus_router/src/router/dzhbus.pb.cc:341-353 | the label reached by switch or goto, with the early true at the end of the input |
| PbBusHead.BusHead.HandleUninterpreted | bus_router/src/router/dzhbus.pb.cc:357-366 | an end-group tag ends the parse with true, any other field is kept as unknown |
| PbBusHead.BusHead.SerializeWithCachedSizes | bus_router/src/router/dzhbus.pb.cc:373-401 | appends the encoding of the present fields in order and the unknown ones |
| PbBusHead.BusHead.SerializeWithCachedSizesToArray | bus_router/src/router/dzhbus.pb.cc:406-440 | the same bytes, written over the array at the position, nothing else changed |
| PbBusHead.BusHead.ByteSize | bus_router/src/router/dzhbus.pb.cc:442-484 | returns and stores the length of what the serializers write |
| PbBusHead.BusHead.MergeFrom | bus_router/src/router/dzhbus.pb.cc:498-515 | the merged message; the source of the merge is unchanged |
| PbLoginReq.LoginReq.MergePartialFromCodedStream | src/dzh_bus_interface.pb.cc:937-973 | the loop with its backward goto accepts and yields what the plain tag loop does |
| PbLoginReq.LoginReq.CaseServiceNo | src/dzh_bus_interface.pb.cc:942-961 | one number or a packed run, and every number that follows under tag 8 |
| PbLoginReq.LoginReq.AddValues | src/dzh_bus_interface.pb.cc:949-954 | a packed run appends its varints, or fails when the last one is cut off |
| PbLoginReq.LoginReq.SerializeWithCachedSizes | src/dzh_bus_interface.pb.cc:975-987 | one tagged number after the other, then the unknown fields |
| PbLoginReq.LoginReq.SerializeWithCachedSizesToArray | src/dzh_bus_interface.pb.cc:989-1002 | the same bytes into the array |
| PbLoginReq.LoginReq.ByteSize | src/dzh_bus_interface.pb.cc:1004-1027 | tags and numbers counted apart add up to the length of the encoding |
| PbLoginReq.LoginReq.MergeFrom | src/dzh_bus_interface.pb.cc:1040-1044 | the repeated field and the unknown fields append |
| PbLoginRsp.RspInfo.MergePartialFromCodedStream | bus_router/src/router/dzhbus.pb.cc:630-682 | the fast path of RspInfo accepts and yields what the plain tag loop does |
| PbLoginRsp.RspInfo.SerializeWithCachedSizes | bus_router/src/router/dzhbus.pb.cc:684-704 | appends the encoding of the message |
| PbLoginRsp.RspInfo.SerializeWithCachedSizesToArray | bus_router/src/router/dzhbus.pb.cc:706-728 | the same bytes into the array |
| PbLoginRsp.RspInfo.ByteSize | bus_router/src/router/dzhbus.pb.cc:730-758 | returns and stores the length of the encoding |
| PbLoginRsp.RspInfo.MergeFrom | bus_router/src/router/dzhbus.pb.cc:772-783 | the last value wins |
| PbLoginRsp.RspInfo.Clear | bus_router/src/router/dzhbus.pb.cc:617-628 | the empty message |
| PbLoginRsp.LoginRsp.MergePartialFromCodedStream | bus_router/src/router/dzhbus.pb.cc:1116-1149 | accepts and yields what the plain tag loop does, with the embedded message parsed onto the one already there |
| PbLoginRsp.LoginRsp.MergeRspInfo | bus_router/src/router/dzhbus.pb.cc:1127-1128 | the embedded message has to be consumed whole |
| PbLoginRsp.LoginRsp.SerializeWithCachedSizes | bus_router/src/router/dzhbus.pb.cc:1151-1163 | after ByteSize, the encoding with the stored length in front of the embedded message |
| PbLoginRsp.LoginRsp.SerializeWithCachedSizesToArray | bus_router/src/router/dzhbus.pb.cc:1165-1179 | the same bytes into the array |
| PbLoginRsp.LoginRsp.ByteSize | bus_router/src/router/dzhbus.pb.cc:1181-1202 | returns and stores the length and stores that of the embedded message |
| PbLoginRsp.LoginRsp.MergeFrom | bus_router/src/router/dzhbus.pb.cc:1216-1224 | recursive merge onto an embedded message that is created when missing |
| PbLoginRsp.LoginRsp.Clear | bus_router/src/router/dzhbus.pb.cc:1106-1114 | the empty message; the embedded object is kept and emptied |
| XmlTextRoundTrip.GetCharOfCode | bus_router/include/yt/xml/tinyxml.cpp:52-133 | the code of any byte is read back as that byte, by entity, by two hexadecimal digits or as itself |
| XmlTextRoundTrip.ReadTextKeepsExactly | bus_router/include/yt/xml/tinyxmlparser.cpp:574-637 | keeping white space, ReadText of an encoded string and an end tag gives the string and stops behind the tag if and only if the string has no literal hexadecimal reference |
| XmlTextRoundTrip.ReadTextCondenses | bus_router/include/yt/xml/tinyxmlparser.cpp:574-637 | condensing white space, it gives the string with plain white space squeezed, tabs and newlines kept as references |
| XmlTextRoundTrip.ReadTextCondensesExactly | bus_router/include/yt/xml/tinyxmlparser.cpp:574-637 | condensing white space, ReadText of any encoded string and an end tag gives the string and stops behind the tag if and only if the string has no literal hexadecimal reference and no leading, trailing or doubled space |
| XmlTextRoundTrip.SqueezedUnchanged | bus_router/include/yt/xml/tinyxmlparser.cpp:574-637 | squeezing changes nothing if and only if the string has no leading, trailing or doubled spaces |
| XmlPrint.EncodeString | bus_router/include/yt/xml/tinyxml.cpp:52-133 | the loop computes the encoding, with a literal hexadecimal reference passed through |
| XmlRoundTrip.ParseOfPrinted | bus_router/include/yt/xml/tinyxmlparser.cpp:704-796 | printing a document and parsing the text restores its nodes, declarations included, without error: with white space condensed in stream and in pretty mode and in every style whose indentation and line break are white space, with white space kept in stream mode |
| XmlRoundTrip.NodesHaveNoNul | bus_router/include/yt/xml/tinyxml.cpp:1766-1874 | the printed text of a valid tree is a C string |
| XmlRoundTrip.DocumentText | bus_router/include/yt/xml/tinyxml.cpp:1756-1885 | the printed text of a valid document is a well formed layout of it, one of those that DocumentRead reads |
| XmlRoundTrip.DeclarationText | bus_router/include/yt/xml/tinyxml.cpp:1418-1437 | the same for a declaration: each of its three fields is printed under its own name |
| XmlPrinted.IndentAdds | bus_router/include/yt/xml/tinyxml.h:1785-1788 | the indentation starts with nothing and grows by the same string with every level |
| XmlPrinted.DocumentPrinted | bus_router/include/yt/xml/tinyxml.cpp:1766-1886 | the text, letter by letter, of a document with a declaration, a comment and a root element |
| XmlPrinted.ChildrenText | bus_router/include/yt/xml/tinyxml.cpp:1766-1886 | the lines, letter by letter, of an empty element with both kinds of quotes, an element with text, one with CDATA and an unknown tag |
| XmlReparse.PrintThenParse | bus_router/include/yt/xml/tinyxml.cpp:1766-1886 | the printer object, in stream or styled mode, and the parser object run one after the other give the same nodes and no error, with white space condensed or, for text that is printed without any, kept |
| XmlReparse.PrintThenLink | bus_router/include/yt/xml/tinyxmlparser.cpp:704-796 | the same with the parsed nodes linked: the tree of node objects under the new document has the types, values, CDATA flags, attributes and children of the printed nodes, all lists well linked and all attribute rings closed |
| XmlBuild.ParseAndLink | bus_router/include/yt/xml/tinyxmlparser.cpp:704-796 | for every text, the node objects under the document node have the types, values, CDATA flags, declaration fields, attributes and children that the text gives, all lists well linked and all attribute rings closed |
| XmlBuild.LinkAll | bus_router/include/yt/xml/tinyxmlparser.cpp:1179-1247 | the parsed children come behind those the parent has, in order and each with its own subtree; no other list changes |
| XmlBuild.LinkTree | bus_router/include/yt/xml/tinyxmlparser.cpp:751-766 | one node as Identify returns it, with its attributes, its children linked first and then itself, although its parent is set before |
| XmlBuild.AddAttributes | bus_router/include/yt/xml/tinyxmlparser.cpp:1160-1172 | added one by one to the ring, distinct attributes stand in it in order and it stays closed |
| XmlParse.ParseDocumentDistinct | bus_router/include/yt/xml/tinyxmlparser.cpp:1156-1172 | whatever the text, no element of the parsed document has two attributes of one name |
| XmlPrint.Printer.VisitEnter | bus_router/include/yt/xml/tinyxml.cpp:1766-1800 | appends the start tag with the attributes the walk over Next reaches and leaves depth and the simple-text mode as the children need them |
| XmlPrint.Printer.VisitExit | bus_router/include/yt/xml/tinyxml.cpp:1803-1826 | appends the end tag, indented unless the element held a single plain text, and leaves the mode |
| XmlPrint.Printer.VisitText | bus_router/include/yt/xml/tinyxml.cpp:1829-1854 | CDATA, simple and indented text |
| XmlPrint.Printer.VisitComment | bus_router/include/yt/xml/tinyxml.cpp:1866-1874 | a comment on its own line |
| XmlPrint.Printer.VisitUnknown | bus_router/include/yt/xml/tinyxml.cpp:1877-1885 | an unknown tag on its own line |
| XmlPrint.Printer.VisitDeclaration | bus_router/include/yt/xml/tinyxml.cpp:1857-1863 | a declaration with the fields that are set |
| XmlPrint.Printer.AcceptElement | bus_router/include/yt/xml/tinyxml.cpp:875-886 | entering, visiting the children in order and leaving |
| XmlPrint.Printer.AcceptAll | bus_router/include/yt/xml/tinyxml.cpp:1156-1167 | appends the printed form of the nodes and leaves depth and mode as they were |
| XmlPrint.Printer.PrintOneAttribute | bus_router/include/yt/xml/tinyxml.cpp:1210-1237 | single quotes only for a value with double quotes in it |
| XmlPrint.Printer.DoIndent | bus_router/include/yt/xml/tinyxml.h:1785-1788 | one indentation a level |
| XmlParser.Document.SkipWhiteSpace | bus_router/include/yt/xml/tinyxmlparser.cpp:314-362 | terminates on every buffer and computes the specified result: null at the terminator, else the first position that is not white space |
| XmlParser.Document.StringEqual | bus_router/include/yt/xml/tinyxmlparser.cpp:534-572 | terminates on every buffer and computes the specified result: true exactly when the text at a live position starts with the tag; false at the end of the buffer |
| XmlParser.Document.ReadName | bus_router/include/yt/xml/tinyxmlparser.cpp:401-433 | terminates on every buffer and computes the specified result: the longest name and the position behind it, or null; null or strictly past the start and never past the terminator |
| XmlParser.Document.ReadDigits | bus_router/include/yt/xml/tinyxmlparser.cpp:445-512 | terminates on every buffer and computes the specified result: the backward digit loop down to the mark, with its 32-bit weight and 64-bit sum |
| XmlParser.Document.GetEntity | bus_router/include/yt/xml/tinyxmlparser.cpp:438-531 | terminates on every buffer and computes the specified result: numeric references and the entity table; null for a reference that is not closed or not a number; null or strictly past the start and never past the terminator |
| XmlParser.Document.ReadText | bus_router/include/yt/xml/tinyxmlparser.cpp:574-637 | terminates on every buffer and computes the specified result: both loops, the end tag stepped over, null when nothing follows; null or strictly past the start and never past the terminator |
| XmlParser.Document.ParseComment | bus_router/include/yt/xml/tinyxmlparser.cpp:1337-1389 | terminates on every buffer and computes the specified result: a comment up to its end tag or the terminator; null or strictly past the start and never past the terminator |
| XmlParser.Document.ParseUnknown | bus_router/include/yt/xml/tinyxmlparser.cpp:1275-1307 | terminates on every buffer and computes the specified result: an unknown tag up to its bracket; null or strictly past the start and never past the terminator |
| XmlParser.Document.ParseText | bus_router/include/yt/xml/tinyxmlparser.cpp:1497-1545 | terminates on every buffer and computes the specified result: CDATA or text, keeping or condensing white space; null or strictly past the start and never past the terminator |
| XmlParser.Document.ParseAttribute | bus_router/include/yt/xml/tinyxmlparser.cpp:1392-1462 | terminates on every buffer and computes the specified result: name, equals sign and a value in either quotes or bare; null or strictly past the start and never past the terminator |
| XmlParser.Document.ParseDeclaration | bus_router/include/yt/xml/tinyxmlparser.cpp:1572-1629 | terminates on every buffer and computes the specified result: the fields of a declaration, in any order; null or strictly past the start and never past the terminator |
| XmlParser.Document.Identify | bus_router/include/yt/xml/tinyxmlparser.cpp:818-900 | terminates on every buffer and computes the specified result: which kind of node starts here |
| XmlParser.Document.ParseElement | bus_router/include/yt/xml/tinyxmlparser.cpp:1043-1176 | terminates on every buffer and computes the specified result: the element with its attributes, children and end tag, and every error on the way; null or strictly past the start and never past the terminator |
| XmlParser.Document.ParseTag | bus_router/include/yt/xml/tinyxmlparser.cpp:1072-1176 | terminates on every buffer and computes the specified result: the attribute loop, duplicates refused; null or strictly past the start and never past the terminator |
| XmlParser.Document.ReadValue | bus_router/include/yt/xml/tinyxmlparser.cpp:1179-1247 | terminates on every buffer and computes the specified result: text and child nodes up to an end tag, mutually recursive with the element; null or strictly past the start and never past the terminator |
| XmlParser.Document.Parse | bus_router/include/yt/xml/tinyxmlparser.cpp:704-796 | terminates on every buffer and computes the specified result: the loop over top-level nodes |
| XmlReading.PieceRead | bus_router/include/yt/xml/tinyxmlparser.cpp:438-531 | a character, one of the five entities and a decimal or hexadecimal reference are each read as their character |
| XmlReading.AttributeRead | bus_router/include/yt/xml/tinyxmlparser.cpp:1392-1462 | an attribute is read with any white space in front of the name and on both sides of the equals sign, in either quote or in none |
| XmlReading.AttrsRead | bus_router/include/yt/xml/tinyxmlparser.cpp:1072-1176 | the attributes of a tag are read in order, in any such layout |
| XmlReading.TextRead | bus_router/include/yt/xml/tinyxmlparser.cpp:574-637 | character data is read up to the next markup as its value, with white space kept or condensed |
| XmlReading.QuotedRead | bus_router/include/yt/xml/tinyxmlparser.cpp:574-637 | a quoted value is read up to its quote |
| XmlReading.IdentifyExactly | bus_router/include/yt/xml/tinyxmlparser.cpp:818-897 | which kind of node stands behind an opening bracket, as an if-and-only-if for each kind |
| XmlReading.FieldRead | bus_router/include/yt/xml/tinyxmlparser.cpp:1602-1620 | a field of a declaration is read whatever the case of its name, and sets the field of that name |
| XmlReading.PrologRead | bus_router/include/yt/xml/tinyxmlparser.cpp:1572-1629 | a declaration is read with its fields in any order and layout, each into the field of its name |
| XmlReading.EndRead | bus_router/include/yt/xml/tinyxmlparser.cpp:1122-1128 | an end tag is read with white space in front of its bracket |
| XmlReading.ItemsRead | bus_router/include/yt/xml/tinyxmlparser.cpp:1179-1247 | character data and markup in any order are read as the children of an element |
| XmlReading.MarkupRead | bus_router/include/yt/xml/tinyxmlparser.cpp:1043-1247 | a well formed element, CDATA section, comment, declaration or other tag, in any layout, empty elements in both forms, is read as the node it stands for, whatever follows |
| XmlReading.DocumentRead | bus_router/include/yt/xml/tinyxmlparser.cpp:704-796 | a well formed document, in any layout and in both white space modes, is parsed to the nodes it stands for, without error |
| XmlFaults.EndTagExactly | bus_router/include/yt/xml/tinyxmlparser.cpp:1122-1137 | an element is closed by its own name, white space if any and a bracket, and by nothing else |
| XmlFaults.WrongEndTag | bus_router/include/yt/xml/tinyxmlparser.cpp:1122-1137 | content in front of any other end tag gives ReadingEndTag |
| XmlFaults.DoubleAttribute | bus_router/include/yt/xml/tinyxmlparser.cpp:1160-1170 | an attribute name for the second time gives ParsingElement |
| XmlFaults.LoneSlash | bus_router/include/yt/xml/tinyxmlparser.cpp:1092-1101 | a slash in a start tag without its bracket gives ParsingEmpty |
| XmlFaults.CutInTag | bus_router/include/yt/xml/tinyxmlparser.cpp:1083-1091 | a text that ends in white space inside a start tag gives ReadingAttributes |
| XmlFaults.NoEquals | bus_router/include/yt/xml/tinyxmlparser.cpp:1404-1415 | an attribute without an equals sign gives ReadingAttributes |
| XmlFaults.NoEndTag | bus_router/include/yt/xml/tinyxmlparser.cpp:1103-1115 | a text that ends behind the content of an element gives ReadingElementValue or ReadingEndTag, by what ends it |
| XmlFaults.FaultInElement | bus_router/include/yt/xml/tinyxmlparser.cpp:1179-1247 | a fault behind any well formed content is a fault of the element around it, with the same error |
| XmlFaults.FaultInDocument | bus_router/include/yt/xml/tinyxmlparser.cpp:704-796 | a fault behind any well formed markup of the top level is the error of the document |
| XmlFaults.NoDocument | bus_router/include/yt/xml/tinyxmlparser.cpp:704-796 | a text that does not begin with markup has no nodes and the error DocumentEmpty |
| XmlDom.Node.InsertBeforeChild | bus_router/include/yt/xml/tinyxml.cpp:230-260 | the node stands in front of the given child; a null, foreign or document argument changes nothing; all remaining nodes stay well linked and every other list is as before |
| XmlDom.Node.InsertAfterChild | bus_router/include/yt/xml/tinyxml.cpp:263-293 | the node stands behind the given child; a null, foreign or document argument changes nothing; all remaining nodes stay well linked and every other list is as before |
| XmlDom.Node.ReplaceChild | bus_router/include/yt/xml/tinyxml.cpp:296-332 | the node stands where the deleted child stood; all remaining nodes stay well linked and every other list is as before |
| XmlDom.Node.RemoveChild | bus_router/include/yt/xml/tinyxml.cpp:335-358 | the list without the deleted child; all remaining nodes stay well linked and every other list is as before |
| XmlDom.Node.LinkEndChild | bus_router/include/yt/xml/tinyxml.cpp:186-210 | a node in no list, with its parent set before or not, becomes the last child: the list appends it, all nodes stay well linked and every other list is as before; a document is refused and nothing changes; for a child already in the list, which the assertion lets through, the exact new pointers |
| XmlDom.AppendKeepsTheList | bus_router/include/yt/xml/tinyxml.cpp:186-210 | for any two nodes of a well linked net the next chain becomes the old list and the node behind it if and only if the node is not in that list yet, whatever its parent pointer says |
| XmlDom.AdoptedIsLinked | bus_router/include/yt/xml/tinyxmlparser.cpp:893-898 | setting the parent of a node in no list, as Identify does, disturbs no list and leaves the node in none |
| XmlDom.NotListed | bus_router/include/yt/xml/tinyxml.cpp:186-210 | a node is in no list if and only if it has no parent or its parent does not list it |
| XmlDom.Node.LinkIdentified | bus_router/include/yt/xml/tinyxmlparser.cpp:756-760 | what the parser does: the parent is set first and the node appended later, and the list is the old one and the node |
| XmlDom.ChainIsCut | bus_router/include/yt/xml/tinyxml.cpp:186-210 | appending a child again loses the siblings behind it |
| XmlDom.ChainNeverEnds | bus_router/include/yt/xml/tinyxml.cpp:186-210 | appending the last child again makes the next chain endless |
| XmlDom.Node.FirstChildNamed | bus_router/include/yt/xml/tinyxml.cpp:361-370 | the first child with the value, or null if there is none |
| XmlDom.Node.LastChildNamed | bus_router/include/yt/xml/tinyxml.cpp:373-382 | the last child with the value, or null if there is none |
| XmlDom.ExchangedIsLinked | bus_router/include/yt/xml/tinyxml.cpp:186-358 | after the pointer assignments of any of the operations the remaining nodes spell out their lists, and only one list is another |
| XmlDom.ChainsAreTheList | bus_router/include/yt/xml/tinyxml.cpp:361-382 | the next chain from firstChild is the list, the prev chain from lastChild its reverse, however long one walks, and every member has the node as parent |
| XmlDom.OneListEach | bus_router/include/yt/xml/tinyxml.cpp:186-358 | a node is in one list only and there once |
| XmlDom.WithoutSubtree | bus_router/include/yt/xml/tinyxml.cpp:147-158 | deleting what hangs under a deleted node leaves the others well linked |
| XmlAttributes.AttributeSet.constructor | bus_router/include/yt/xml/tinyxml.cpp:1500-1504 | an empty ring: the sentinel points to itself |
| XmlAttributes.AttributeSet.Add | bus_router/include/yt/xml/tinyxml.cpp:1514-1527 | the ring stays closed and the attribute comes last |
| XmlAttributes.AttributeSet.Remove | bus_router/include/yt/xml/tinyxml.cpp:1529-1545 | an attribute of the set leaves the ring with its pointers cleared; any other leaves the set unchanged |
| XmlAttributes.AttributeSet.Find | bus_router/include/yt/xml/tinyxml.cpp:1549-1557 | the first attribute of that name in the sequence, null exactly if there is none |
| XmlAttributes.AttributeSet.FindOrCreate | bus_router/include/yt/xml/tinyxml.cpp:1559-1568 | the attribute of that name, appended empty if it was missing; names stay unique and non-empty |
| XmlAttributes.AttributeSet.RemoveAttribute | bus_router/include/yt/xml/tinyxml.cpp:437-450 | afterwards no attribute has the name; the others keep their order |
| XmlAttributes.AttributeSet.First | bus_router/include/yt/xml/tinyxml.h:912-912 | the first of the sequence or null |
| XmlAttributes.AttributeSet.Last | bus_router/include/yt/xml/tinyxml.h:914-915 | the last of the sequence or null |
| XmlAttributes.AttributeSet.Walk | bus_router/include/yt/xml/tinyxml.cpp:1772-1776 | the loop over First and Next visits the attributes in order up to the first blank one behind the first |
| XmlAttributes.WalkIsComplete | bus_router/include/yt/xml/tinyxml.cpp:1170-1177 | it visits all of them if and only if no attribute behind the first has an empty name and an empty value |
| XmlAttributes.ProperWalkIsComplete | bus_router/include/yt/xml/tinyxml.cpp:1170-1177 | with non-empty names it visits every attribute once, in order |
| XmlNewlines.NormalizeInPlace | bus_router/include/yt/xml/tinyxml.cpp:1052-1075 | the two-pointer pass leaves the normalized text, terminated, at the front of the buffer and never writes in front of what it has still to read |
| XmlNewlines.NormalizeIsTranslation | bus_router/include/yt/xml/tinyxml.cpp:1052-1075 | the pass is the translation of section 2.11 of XML 1.0, said position by position |
| XmlNewlines.NoCarriageReturn | bus_router/include/yt/xml/tinyxml.cpp:1052-1075 | no CR is left, and no NUL appears |
| XmlNewlines.UnchangedWithoutCarriageReturn | bus_router/include/yt/xml/tinyxml.cpp:1052-1075 | the pass changes nothing if and only if there is no CR |
| XmlNewlines.Idempotent | bus_router/include/yt/xml/tinyxml.cpp:1052-1075 | a second pass changes nothing |
| XmlCursor.ParsingData.Stamp | bus_router/include/yt/xml/tinyxmlparser.cpp:196-311 | row, column and position after the loop in byte encoding; a position behind the terminator changes nothing |
| XmlCursor.ParsingData.StampAll | bus_router/include/yt/xml/tinyxmlparser.cpp:196-311 | any monotone series of calls gives the row and column of one pass to the last position, on every text |
| XmlCursor.WalkOn | bus_router/include/yt/xml/tinyxmlparser.cpp:196-311 | going on from where a walk stopped is one walk, also where it stopped behind the target |
| XmlCursor.RowsAreLines | bus_router/include/yt/xml/tinyxmlparser.cpp:196-311 | on a text without CR a walk stops exactly at its target and the row grows by one with every LF |
| XmlCursor.ColumnRestarts | bus_router/include/yt/xml/tinyxmlparser.cpp:196-311 | the column depends on the last line only |
| XmlCursor.PlainColumn | bus_router/include/yt/xml/tinyxmlparser.cpp:261-302 | on a stretch without tabs and line breaks the column grows by one with every character |
| XmlCursor.TabColumn | bus_router/include/yt/xml/tinyxmlparser.cpp:254-259 | a tab leads to the least multiple of the tab size above the column |
| XmlCursor.ColumnIsWidth | bus_router/include/yt/xml/tinyxmlparser.cpp:196-311 | within a line the column is the width of what stands in front, with tabs expanded |
| XmlCursor.LinesAndWidths | bus_router/include/yt/xml/tinyxmlparser.cpp:196-311 | in a text of lines under any of the four line breaks, the row of a position is the number of its line and the column the width in front of it in that line |
| XmlCursor.LoadedTextRows | bus_router/include/yt/xml/tinyxml.cpp:1052-1079 | on what LoadFile hands to the parser the row is the number of LFs passed |
| XmlUtf8.ConvertUtf32ToUtf8 | bus_router/include/yt/xml/tinyxmlparser.cpp:88-126 | the fall-through switch fills in the bytes of section 3 of RFC 3629, and none from 0x200000 on |
| XmlUtf8.DecodeUndoesUtf8 | bus_router/include/yt/xml/tinyxmlparser.cpp:88-126 | decoding the bytes by the patterns of section 3 gives the number |
| XmlUtf8.NoShorterForm | bus_router/include/yt/xml/tinyxmlparser.cpp:88-126 | no shorter sequence of bytes decodes to the number |
| XmlUtf8.TableCountsBytes | bus_router/include/yt/xml/tinyxmlparser.cpp:66-85 | utf8ByteTable at the lead byte gives the number of bytes if and only if the number is below 0x140000 |
| XmlUtf8.ReadDigitsIsValue | bus_router/include/yt/xml/tinyxmlparser.cpp:445-512 | the backward loop gives the value of the digits whenever it is below 2^32, however many leading zeros there are |
| XmlUtf8.DecimalReferenceIsRight | bus_router/include/yt/xml/tinyxmlparser.cpp:479-502 | a closed decimal reference is read as its value if and only if the value is below 5 000 000 000 |
| XmlUtf8.HexDigitsWrap | bus_router/include/yt/xml/tinyxmlparser.cpp:451-474 | the loop over hexadecimal digits keeps the lowest 32 bits of the number, for any number of digits |
| XmlUtf8.HexReferenceIsRight | bus_router/include/yt/xml/tinyxmlparser.cpp:451-477 | a closed hexadecimal reference is read as its value if and only if the value is below 2^32 |
| XmlUtf8.ReferenceGivesItsNumber | bus_router/include/yt/xml/tinyxmlparser.cpp:445-512 | every reference to a number up to 0x10FFFF is read as bytes that decode to that number, as many as the table says for the lead byte |

## Left out

- The ZeroMQ programs, the proxy, the router's own class (declared in bus_router.h, with no bodies), zookeeper calls, logging, threads and locks: network I/O and wrappers.
- Allocation failure, realloc and delete as such: arrays are exchanged for larger or smaller ones with the same contents.
- XmlDom.Node.InsertBeforeChild: takes the clone of the node to add as an argument, as InsertAfterChild and ReplaceChild do; Clone itself and GetDocument with its error report are not modelled.
- XmlDom.Node.LinkEndChild: a node appended to itself is not considered.
- XmlDom.Node.RemoveChild: the destructor's recursion into the removed subtree is not followed; WithoutSubtree says what it leaves behind. As in the other list operations, a given child whose parent is this node is taken to stand in its list, which fails only while it is being parsed.
- XmlParser.Document.ReadValue: returns the children as values; XmlBuild.LinkAll is the linking, apart from the reading.
- XmlParser.Document.Parse: returns the top-level nodes as values; XmlBuild.ParseAndLink makes and links the node objects when the reading is over, where the source links each child as soon as it is read.
- XmlDom.Node: one class holds the fields of every kind of node, and a node leaves those of the other kinds empty.
- XmlParser: node locations, user data, the byte order mark and the encoding named in a declaration are not part of the parsed tree; the parser is the one for byte encoding.
- XmlRoundTrip.ParseOfPrinted: no plain text stands at the top level of a document, where the parser accepts none, and the fields of a declaration, which are printed as they are, hold no double quote, no ampersand and no NUL.
- XmlReading.PieceRead: numeric references stand for one byte here; XmlUtf8 has those of UTF-8 mode. An ampersand that begins no reference is read as itself, which no layout of XmlSyntax uses.
- XmlFaults.NoEndTag: a text that ends inside character data is not considered.
- XmlPrint.Printer: printing to a FILE, the stream operators and reading from a stream are not modelled; nor are number conversions of attribute values.
- XmlUtf8: of UTF-8 mode only numeric references; which number a decimal reference from 5 000 000 000 on gives is not stated.
- XmlCursor: Stamp in UTF-8 mode.
- DFixStream: AddInt, and the header that defines SOH and MAXHEADERLEN, which is not part of this model: SOH is 1 and the gap holds a length of eight digits.
- DFixSpec.ParseRawData: a negative length would move the cursor backwards; the parse is reported as such and not followed, and a read at or behind the end of the buffer ends the parse as out of bounds.
- DFixStream.WriteStream.AddRaw: requires data below 10^9 bytes, and Flush a body below 10^9 bytes, because the source prints the length into ten characters.
- Md5.Context.Update: one call takes fewer than 2^32 bytes, the width of its length parameter; the formatting of a digest as text is not modelled.
- PbStream.CodedInputStream.SkipField: a start-group tag fails here, where the library skips the group.
- PbStream.CodedInputStream: buffers, total-size and recursion limits, lengths of 2^31 and more, and the library's own batching of repeated fields.
- Protobuf descriptors, reflection, UTF-8 checks of string fields, required-field checks, and AnyReq and the other messages, which repeat the same patterns.
- The functions XmlLex.ReadDigits, PbWire.Loop and their like carry no rows: they compute, and the lemmas and methods about them are listed.
