# Models of the toy's protocol code

This project models the parts of the repository that move data between machines, and proves what they promise. The
hard core is the HTTP/2 header compression of nghttp2 (HPACK, RFC 7541) with everything it stands on; around it are the
stream map, the chunked buffers and frame packing, flow-control windows, the jsmn tokenizer, and the toy's own serial
protocol.

## How it is built

Code that changes things in place is modelled by classes and methods with the same fields, branches and loops. Each is
proved to compute a function on plain values, and the promises are proved about those functions.

- `Bytes`, `Bits`: octets, powers of two, bit strings and packing.
- `HuffmanCode`, `HuffmanTable`, `HuffmanGenerator`, `HuffmanExample`, `HuffmanEncoder`: prefix codes and their bit-by-bit
  reading; the nibble automaton that the generator script prints, and its meaning; the script itself, building, numbering
  and traversing linked nodes; a code that meets the assumptions; the encoder with its 64-bit accumulator.
- `HpackInteger`, `HpackTable`, `HpackFormat`: integers, the dynamic table as a sequence with its eviction rule, and what
  is written for a field and a block.
- `HpackReader`, `HpackChunks`, `HpackLockStep`, `HpackSession`: the inflater as a machine that takes one octet at a time,
  and the proof that it follows the deflater over whole runs.
- `HpackChoice`, `HpackReference`, `HpackLimits`: what both ends promise, said without their own functions: what the
  deflater finds, decides and writes; blocks as section 6 of RFC 7541 defines them, and that the inflater accepts exactly
  these; and the limits that the inflater keeps and enforces.
- `HpackContext`, `HpackRing`, `HpackDeflater`, `HpackInflater`: hash chains, ring buffer, and the two ends as they are
  programmed, proved against the above. `HpackBound`: the size bound callers rely on.
- `Buffers`, `Frames`: chained buffers; frame headers, HEADERS and CONTINUATION, and the way from header list to header
  list through deflater, frames and inflater.
- `RobinHood`, `MapGrowth`, `RobinHoodMap`: the hash map with backward-shift deletion as a finite map, and how long it can
  grow.
- `Jsmn`, `JsmnParser`, `JsmnDocument`: the tokenizer as a machine, as a class over a token array, and against JSON texts.
- `FlowControl`, `Crc16`, `Crc16Division`, `QBus`: windows, the checksum and its meaning as a division of polynomials, and
  the serial slave.

## Where the code falls short

- `nghttp2_hd_deflate_bound` is documented in `nghttp2.h` as the upper bound to reserve. Its comment counts six octets for
  each of a field's two lengths and none for the octet in front of them. `HpackBound` gives the exact condition under
  which that is too little, and a field for which it is.
- Increasing a window by `nghttp2_adjust_local_window_size` does not always undo a decrease by the same amount;
  `FlowControl.AdjustUndoesReduction` says exactly when it does, and `FlowControl.AdjustLosesTen` is a case where not.
- The hash map's table cannot outgrow 2^31 buckets. `tablelen * 3` wraps at that length, so that the table is asked to
  grow at a quarter full, to a length that wraps to 0. `MapGrowth.Growth` gives the exact condition; keys put into an
  empty map meet it with the 805306370th (`MapGrowth.InsertionsSucceed`).
- `nghttp2_bufs_addb` writes past the end of a fresh chunk whose offset takes up its whole length, although
  `nghttp2_bufs_init3` accepts such sizes. `Buffers.Bufs.Addb` gives the exact condition, `Buffers.AddbPastTheEnd` an
  example.
- In the toy's port switching reception off has no effect, so that an octet may arrive while a reply is waiting in the
  same buffer. `QBus.Slave.PortByteReceived` says exactly when that spoils the reply.

## Model

| member | source | states |
|---|---|---|
| `HpackInteger.CountEncodedLength` | managed_components/espressif__nghttp/nghttp2/lib/nghttp2_hd.c:794-809 | counts exactly the octets that the encoding of a value takes, for every value and prefix |
| `HpackInteger.EncodeLength` | managed_components/espressif__nghttp/nghttp2/lib/nghttp2_hd.c:811-834 | writes the value's encoding into the low bits of the first octet and keeps the flags above them |
| `HpackInteger.DecodeLength` | managed_components/espressif__nghttp/nghttp2/lib/nghttp2_hd.c:853-916 | refuses exactly when reading octet by octet overflows, and otherwise returns what that reading returns, with the octets used and the shift to resume with |
| `HpackInteger.IntRunSplit` | managed_components/espressif__nghttp/nghttp2/lib/nghttp2_hd.c:836-916 | cutting a number's octets anywhere and resuming with the value and shift so far gives the same result |
| `HpackInteger.ContinuationMeaning` | managed_components/espressif__nghttp/nghttp2/lib/nghttp2_hd.c:823-831 | the groups after the first octet spell the rest of the value in base 128 and only the last is unmarked |
| `HpackInteger.ContinuationAccepted` | managed_components/espressif__nghttp/nghttp2/lib/nghttp2_hd.c:886-909 | a run of groups is accepted exactly when there are at most five of them and the value stays within 32 bits; it then yields prefix value plus groups |
| `HpackInteger.RoundTrip` | managed_components/espressif__nghttp/nghttp2/lib/nghttp2_hd.c:811-916 | reading an encoding gives the value back, and uses exactly its octets, if and only if the value has 32 bits |
| `HpackInteger.EncodedLength` | managed_components/espressif__nghttp/nghttp2/lib/nghttp2_hd.c:794-809 | a 32-bit value takes at most six octets, and six exactly from the prefix limit plus 2^28 on |
| `HpackTable.FitIsLongestPrefix` | managed_components/espressif__nghttp/nghttp2/lib/nghttp2_hd.c:1224-1244 | what survives shrinking is the longest run of newest entries within the budget: a prefix fits if and only if it is no longer |
| `HpackTable.FitTwice` | managed_components/espressif__nghttp/nghttp2/lib/nghttp2_hd.c:1224-1244 | shrinking to one size and then to another is shrinking to the smaller, which is why announcing the minimum and the final size suffices |
| `HpackTable.FitDropLast` | managed_components/espressif__nghttp/nghttp2/lib/nghttp2_hd.c:1228-1241 | dropping the oldest entry while the table is too large converges to the longest fitting prefix |
| `HpackTable.SizeLaw` | managed_components/espressif__nghttp/nghttp2/lib/nghttp2_hd.c:782-784 | a table's size is 32 for every entry and all octets of its names and values |
| `HpackTable.LongestFit` | managed_components/espressif__nghttp/nghttp2/lib/nghttp2_hd.c:1224-1244 | shrinking leaves the newest entries, as many as fit when each counts its octets and 32 more |
| `HpackTable.LongestInsert` | managed_components/espressif__nghttp/nghttp2/lib/nghttp2_hd.c:1101-1165 | insertion leaves the new entry and as many of the newest as fit, counted so, and nothing if the new entry does not fit alone |
| `HpackFormat.LookupToken` | managed_components/espressif__nghttp/nghttp2/lib/nghttp2_hd.c:120-485 | a token between 0 and 60 is the index of a static entry of that very name |
| `HpackFormat.FindExactIsNewest` | managed_components/espressif__nghttp/nghttp2/lib/nghttp2_hd.c:548-575 | the entry found for a field is the newest equal one, and none is found only if there is none |
| `HpackFormat.FindNameIsNewest` | managed_components/espressif__nghttp/nghttp2/lib/nghttp2_hd.c:548-575 | the entry found for a name is the newest of that name, and none is found only if there is none |
| `HpackFormat.SearchLeadsBack` | managed_components/espressif__nghttp/nghttp2/lib/nghttp2_hd.c:1173-1222 | the index found leads back to the same field, or at least the same name; a never-indexed field is never matched whole |
| `HpackFormat.FieldsAppend` | managed_components/espressif__nghttp/nghttp2/lib/nghttp2_hd.c:1475-1480 | the octets of a list are those of its first part followed by those of the rest written with the table left by the first part |
| `HpackChoice.TokenLaw` | managed_components/espressif__nghttp/nghttp2/lib/nghttp2_hd.c:120-485 | a token below 61 is the first static place of the name, and a name without such a token is in no static entry |
| `HpackChoice.SearchLaw` | managed_components/espressif__nghttp/nghttp2/lib/nghttp2_hd.c:1173-1222 | unless a field is never to be indexed, its newest equal dynamic entry is found, else the first equal static entry of its name; then the first static entry of the name, then the newest dynamic one, and nothing only if no entry has the name |
| `HpackChoice.SensitiveLaw` | managed_components/espressif__nghttp/nghttp2/lib/nghttp2_hd.c:1365-1374 | authorization, cookies below 20 octets and what the caller marked are never inserted, and exactly they are delivered with the mark |
| `HpackChoice.TableLaw` | managed_components/espressif__nghttp/nghttp2/lib/nghttp2_hd.c:1328-1341 | the table changes exactly for a field that is in neither table, not sensitive, not of the eight names left out and within three quarters of the size; it then comes first |
| `HpackChoice.NumberLaw` | managed_components/espressif__nghttp/nghttp2/lib/nghttp2_hd.c:811-834 | the octets written spell the number, keep the flags and are as few as can be |
| `HpackChoice.StringLaw` | managed_components/espressif__nghttp/nghttp2/lib/nghttp2_hd.c:972-1015 | a string is written in the shorter of its two forms, and the first bit says in which |
| `HpackChoice.WholeFieldLaw` | managed_components/espressif__nghttp/nghttp2/lib/nghttp2_hd.c:1381-1391 | a field found whole, not being sensitive, is written as that entry's index alone |
| `HpackChoice.LiteralLaw` | managed_components/espressif__nghttp/nghttp2/lib/nghttp2_hd.c:1393-1439 | any other field is a literal with the index of its name, or its name where there is none; the first octet says never indexed, indexed or neither |
| `HpackChoice.ChangesAnnounced` | managed_components/espressif__nghttp/nghttp2/lib/nghttp2_hd.c:1246-1260 | after any number of changes of the limit the table holds what fits the least of them, and the next block begins with that one, if it is below the last, and the last |
| `HpackChoice.FreshAnnounces` | managed_components/espressif__nghttp/nghttp2/lib/nghttp2_hd.c:701-723 | a fresh deflater has the smaller of its limit and 4096, and announces it exactly if that is its limit |
| `HpackReader.RunSplit` | managed_components/espressif__nghttp/nghttp2/lib/nghttp2_hd.c:1892-2259 | the octet machine's input may be cut anywhere: same fields, same final state, or the same refusal after the same fields |
| `HpackReader.ChunkIndependence` | managed_components/espressif__nghttp/nghttp2/lib/nghttp2_hd.c:1892-2265 | a header block fed in any number of chunks of any sizes gives what it gives when fed whole |
| `HpackReference.CodedString` | managed_components/espressif__nghttp/nghttp2/lib/nghttp2_hd_huffman.c:110-146 | a Huffman-coded string is accepted if and only if it is an encoding, and then gives what was encoded |
| `HpackReference.InflatesExactly` | managed_components/espressif__nghttp/nghttp2/lib/nghttp2_hd.c:1892-2259 | over all inputs: accepted are exactly the blocks that section 6 of RFC 7541 defines, within the inflater's limits; the fields handed out, the table, its size and what the peer owes are what that section says |
| `HpackLimits.LowerLimit` | managed_components/espressif__nghttp/nghttp2/lib/nghttp2_hd.c:1281-1290 | a limit below the table's size evicts at once to the newest entries that fit and makes an update obligatory |
| `HpackLimits.HigherLimit` | managed_components/espressif__nghttp/nghttp2/lib/nghttp2_hd.c:1262-1279 | any other limit is only remembered, also while an update is owed, and within a block none is taken |
| `HpackLimits.OwedUpdate` | managed_components/espressif__nghttp/nghttp2/lib/nghttp2_hd.c:1915-1979 | while an update is owed, an input is refused unless it begins with one, and with one within the lowest limit announced |
| `HpackLimits.NeverMoreThanAnnounced` | managed_components/espressif__nghttp/nghttp2/lib/nghttp2_hd.c:1892-2265 | over any octets and any changes of limit the table, with 32 for each entry, stays within its maximum and that within the limit announced last |
| `HpackChunks.NumberRun` | managed_components/espressif__nghttp/nghttp2/lib/nghttp2_hd.c:1659-1686 | checking a number's limit once per chunk refuses and accepts exactly what checking it after every octet would |
| `HpackChunks.NameRun` | managed_components/espressif__nghttp/nghttp2/lib/nghttp2_hd.c:1738-1747 | taking as many name octets as the chunk has is taking them one by one |
| `HpackChunks.NameHuffRun` | managed_components/espressif__nghttp/nghttp2/lib/nghttp2_hd.c:1701-1724 | checking for a stuck or badly ended Huffman name once per chunk finds what checking after every octet would |
| `HpackChunks.ValueHuffRun` | managed_components/espressif__nghttp/nghttp2/lib/nghttp2_hd.c:1701-1724 | the same for values, which commit the literal when complete |
| `HpackLockStep.ValueString` | managed_components/espressif__nghttp/nghttp2/lib/nghttp2_hd.c:972-1015 | a value written by the deflater is read back whole, or refused exactly when its literal is longer than the inflater allows |
| `HpackLockStep.NameString` | managed_components/espressif__nghttp/nghttp2/lib/nghttp2_hd.c:972-1015 | the same for a name followed by anything |
| `HpackLockStep.IndexedField` | managed_components/espressif__nghttp/nghttp2/lib/nghttp2_hd.c:946-970 | an index written for an entry of either table makes the inflater hand out that entry and leaves its table alone |
| `HpackLockStep.IndexedNameField` | managed_components/espressif__nghttp/nghttp2/lib/nghttp2_hd.c:1033-1073 | a literal with an indexed name is delivered with that name, its value and its never-indexed mark, and is inserted if and only if it says so |
| `HpackLockStep.NewNameField` | managed_components/espressif__nghttp/nghttp2/lib/nghttp2_hd.c:1075-1099 | the same for a literal with a new name, refused exactly when one of its strings is too long |
| `HpackLockStep.FieldRoundTrip` | managed_components/espressif__nghttp/nghttp2/lib/nghttp2_hd.c:1343-1439 | whatever representation the deflater chooses, the inflater delivers the field that was put in and both tables change alike; it refuses exactly the unacceptable literals |
| `HpackLockStep.FieldsRoundTrip` | managed_components/espressif__nghttp/nghttp2/lib/nghttp2_hd.c:1475-1480 | the same for whole lists, with what was delivered before a refusal being a prefix of the list |
| `HpackSession.SizeUpdateRead` | managed_components/espressif__nghttp/nghttp2/lib/nghttp2_hd.c:1961-1979 | a size update is accepted and applied whenever it is within both limits the inflater keeps |
| `HpackSession.InitiallyInStep` | managed_components/espressif__nghttp/nghttp2/lib/nghttp2_hd.c:701-759 | a fresh deflater of any configured size and a fresh inflater are in step, the deflater owing an update if its size is not the default |
| `HpackSession.LimitChangeKeepsStep` | managed_components/espressif__nghttp/nghttp2/lib/nghttp2_hd.c:1246-1293 | after both ends learn a new table limit between blocks they are still in step: the deflater owes exactly what the inflater now requires |
| `HpackSession.HeadRead` | managed_components/espressif__nghttp/nghttp2/lib/nghttp2_hd.c:1451-1473 | the one or two size updates at a block's head bring the inflater's table and size back to the deflater's, after any number of changes |
| `HpackSession.BlockRoundTrip` | managed_components/espressif__nghttp/nghttp2/lib/nghttp2_hd.c:1441-1490 | one block: delivered as sent with both tables and sizes equal afterwards, if and only if every literal is acceptable |
| `HpackSession.ChunkedBlockRoundTrip` | managed_components/espressif__nghttp/nghttp2/lib/nghttp2_hd.c:1892-2265 | the same for a block cut into chunks in any way |
| `HpackSession.LockStep` | managed_components/espressif__nghttp/nghttp2/lib/nghttp2_hd.c:1246-1490 | over any run of blocks and limit changes the inflater delivers exactly the lists that were sent and both ends stay in step, if and only if nothing sent is too long |
| `HpackSession.FreshEndsLockStep` | managed_components/espressif__nghttp/nghttp2/lib/nghttp2_hd.c:696-759 | the same from two freshly initialised ends |
| `HpackContext.HdMap.Insert` | managed_components/espressif__nghttp/nghttp2/lib/nghttp2_hd.c:533-546 | the new entry heads its chain; all chains then hold exactly the longer list, newest first |
| `HpackContext.HdMap.Remove` | managed_components/espressif__nghttp/nghttp2/lib/nghttp2_hd.c:577-591 | exactly the given entry leaves its chain and every other chain is as before |
| `HpackContext.HdMap.Find` | managed_components/espressif__nghttp/nghttp2/lib/nghttp2_hd.c:548-575 | walking one chain finds exactly what a scan of the whole table would: the newest equal field, or else the newest entry of that name |
| `HpackContext.ChainFindsExact` | managed_components/espressif__nghttp/nghttp2/lib/nghttp2_hd.c:548-575 | no entry outside the bucket of a name's hash can match it |
| `HpackContext.ChainFindsName` | managed_components/espressif__nghttp/nghttp2/lib/nghttp2_hd.c:548-575 | the same for matches of the name alone |
| `HpackContext.MatchIsName` | managed_components/espressif__nghttp/nghttp2/lib/nghttp2_hd.c:553-562 | comparing tokens, or hash and name where there is no token, passes over exactly the entries of other names |
| `HpackContext.MultipliesByPrime` | managed_components/espressif__nghttp/nghttp2/lib/nghttp2_hd.c:516-527 | the shifts and additions of the name hash multiply by the prime of 32-bit FNV-1a |
| `HpackRing.HdContext.constructor` | managed_components/espressif__nghttp/nghttp2/lib/nghttp2_hd.c:593-606 | the ring's length is the least power of two holding the initial size, and it is empty |
| `HpackRing.HdContext.Get` | managed_components/espressif__nghttp/nghttp2/lib/nghttp2_hd.c:608-612 | index i counts from the newest entry, wherever the ring starts |
| `HpackRing.HdContext.Reserve` | managed_components/espressif__nghttp/nghttp2/lib/nghttp2_hd.c:614-637 | growing the ring moves every entry so that the list it holds is unchanged |
| `HpackRing.HdContext.PushFront` | managed_components/espressif__nghttp/nghttp2/lib/nghttp2_hd.c:653-667 | the ring holds the new entry in front of the old list, also when the start wraps below zero |
| `HpackRing.HdContext.EvictOldest` | managed_components/espressif__nghttp/nghttp2/lib/nghttp2_hd.c:1228-1241 | the oldest entry leaves ring, chains and byte count together, the count being 32 for every entry and all octets left |
| `HpackRing.HdContext.ShrinkTableSize` | managed_components/espressif__nghttp/nghttp2/lib/nghttp2_hd.c:1224-1244 | what is left is the longest prefix that fits, with the byte count equal to the sum of its entries and within the maximum |
| `HpackRing.HdContext.AddIncremental` | managed_components/espressif__nghttp/nghttp2/lib/nghttp2_hd.c:1101-1165 | insertion gives the longest fitting prefix of the new entry followed by the old table, nothing if the entry alone is too large; ring, count, numbers and chains agree afterwards |
| `HpackRing.NumbersShift` | managed_components/espressif__nghttp/nghttp2/lib/nghttp2_hd.c:1146-1158 | entries keep telling their age by number across the wrap of the 32-bit counter |
| `Buffers.BufsInit` | managed_components/espressif__nghttp/nghttp2/lib/nghttp2_buf.c:127-156 | buffers are made exactly for sensible sizes and are then empty with one chunk |
| `Buffers.Bufs.AllocChain` | managed_components/espressif__nghttp/nghttp2/lib/nghttp2_buf.c:303-333 | the next chunk is used or made without touching the content; the error comes exactly when the chain has its full length, and then no room is left |
| `Buffers.Bufs.Add` | managed_components/espressif__nghttp/nghttp2/lib/nghttp2_buf.c:335-361 | appends all of the data exactly when it fits, across chunks; otherwise as much as fits, with the error and no room left |
| `Buffers.Bufs.EnsureAddb` | managed_components/espressif__nghttp/nghttp2/lib/nghttp2_buf.c:363-379 | an octet finds room afterwards exactly if there was some, or a chunk may be added and has room behind its offset |
| `Buffers.Bufs.Addb` | managed_components/espressif__nghttp/nghttp2/lib/nghttp2_buf.c:381-392 | appends the octet exactly when there is room; it goes past the end of its chunk if and only if a chunk is added whose offset takes up all of it |
| `Buffers.AddbPastTheEnd` | managed_components/espressif__nghttp/nghttp2/lib/nghttp2_buf.c:381-392 | sizes that are accepted and with which the first octet goes past the end of its chunk |
| `Buffers.Bufs.Len` | managed_components/espressif__nghttp/nghttp2/lib/nghttp2_buf.c:291-301 | counts the octets of the whole chain |
| `Buffers.Bufs.Remove` | managed_components/espressif__nghttp/nghttp2/lib/nghttp2_buf.c:433-466 | returns the concatenation of the chunks |
| `Buffers.Bufs.Reset` | managed_components/espressif__nghttp/nghttp2/lib/nghttp2_buf.c:486-517 | empties the content and cuts the chain to the chunks to keep |
| `HuffmanCode.ReadsExactlyEncodings` | managed_components/espressif__nghttp/nghttp2/lib/nghttp2_hd_huffman.c:110-146 | reading bit by bit ends acceptably with exactly the octets whose padded code bits were read: every other input is refused or means something else |
| `HuffmanTable.NumberIsPlace` | managed_components/espressif__nghttp/nghttp2/mkhufftbl.py:314-324 | a node's number is the position of its row in the printed table |
| `HuffmanTable.LazyIsWalk` | managed_components/espressif__nghttp/nghttp2/mkhufftbl.py:326-347 | four bits from any internal node meet at most one leaf, and the target recorded is where the bit-by-bit walk ends with what it emits |
| `HuffmanTable.NibbleStep` | managed_components/espressif__nghttp/nghttp2/lib/nghttp2_hd_huffman.c:118-139 | one nibble through the generated table does what four bits of the tree walk do |
| `HuffmanTable.TableMeansTree` | managed_components/espressif__nghttp/nghttp2/mkhufftbl.py:326-408 | over any input the generated automaton emits the same symbols as the bit-by-bit walk, accepts exactly when the rest may be padding, and is stuck exactly after EOS |
| `HuffmanTable.FailureIsFinal` | managed_components/espressif__nghttp/nghttp2/lib/nghttp2_hd_huffman.c:144-146 | the failure state is never left and emits nothing |
| `HuffmanTable.OutputRoom` | managed_components/espressif__nghttp/nghttp2/lib/nghttp2_hd.c:2051-2056 | decoding writes at most two octets for every octet read, which is the room the inflater reserves |
| `HuffmanTable.DecodesExactlyEncodings` | managed_components/espressif__nghttp/nghttp2/lib/nghttp2_hd_huffman.c:110-142 | the table accepts an input as a string if and only if the input is that string's encoding |
| `HuffmanTable.EncodingReadsBack` | managed_components/espressif__nghttp/nghttp2/lib/nghttp2_hd_huffman.c:45-142 | decoding an encoding gives the source back and ends acceptably |
| `HuffmanGenerator.Context.Add` | managed_components/espressif__nghttp/nghttp2/mkhufftbl.py:296-309 | exactly the nodes on the path of the code exist afterwards, and exactly the last one got the symbol |
| `HuffmanGenerator.Context.AddAll` | managed_components/espressif__nghttp/nghttp2/mkhufftbl.py:415-427 | adding all codes one after the other makes exactly the tree they determine |
| `HuffmanGenerator.Context.SetNodeId` | managed_components/espressif__nghttp/nghttp2/mkhufftbl.py:314-321 | every internal node below gets its number in visiting order and is marked exactly if a string may end there; all others are untouched |
| `HuffmanGenerator.Context.Traverse` | managed_components/espressif__nghttp/nghttp2/mkhufftbl.py:326-347 | appends the targets of all strings of the given length in order; a second symbol never turns up |
| `HuffmanGenerator.Context.BuildTransitionTable` | managed_components/espressif__nghttp/nghttp2/mkhufftbl.py:349-354 | every node below gets its sixteen targets and no other node changes |
| `HuffmanGenerator.Context.PrintTransitionTable` | managed_components/espressif__nghttp/nghttp2/mkhufftbl.py:362-387 | prints the rows of the internal nodes in the order of their numbers, with the flags that their targets call for |
| `HuffmanGenerator.GenerateTable` | managed_components/espressif__nghttp/nghttp2/mkhufftbl.py:411-467 | the whole generator: from the codes alone it builds, numbers and traverses the tree, and the table printed is the one proved to mean the tree |
| `HuffmanGenerator.BuiltIsTree` | managed_components/espressif__nghttp/nghttp2/mkhufftbl.py:296-312 | the places of the tree are exactly the beginnings of its codes, with symbols at exactly their ends |
| `HuffmanEncoder.EncodeCount` | managed_components/espressif__nghttp/nghttp2/lib/nghttp2_hd_huffman.c:34-43 | counts exactly the octets that encoding writes |
| `HuffmanEncoder.WriteFour` | managed_components/espressif__nghttp/nghttp2/lib/nghttp2_hd_huffman.c:64-71 | the fast path writes the four octets at the top of the accumulator, which are the next four of the encoding |
| `HuffmanEncoder.Flush` | managed_components/espressif__nghttp/nghttp2/lib/nghttp2_hd_huffman.c:60-88 | symbol by symbol, by four octets or by single ones, what was written plus what is held back is always the encoding so far |
| `HuffmanEncoder.HuffEncode` | managed_components/espressif__nghttp/nghttp2/lib/nghttp2_hd_huffman.c:45-104 | appends exactly the concatenated code bits padded with ones, whichever path the octets take and wherever chunks end; if it does not fit, as much as fits |
| `HpackDeflater.EmitTableSize` | managed_components/espressif__nghttp/nghttp2/lib/nghttp2_hd.c:918-944 | appends a size update |
| `HpackDeflater.EmitString` | managed_components/espressif__nghttp/nghttp2/lib/nghttp2_hd.c:972-1015 | appends the length and the shorter of the two forms of a string |
| `HpackDeflater.EmitIndname` | managed_components/espressif__nghttp/nghttp2/lib/nghttp2_hd.c:1033-1073 | appends a literal with an indexed name |
| `HpackDeflater.EmitNewname` | managed_components/espressif__nghttp/nghttp2/lib/nghttp2_hd.c:1075-1099 | appends a literal with a new name |
| `HpackDeflater.HashName` | managed_components/espressif__nghttp/nghttp2/lib/nghttp2_hd.c:516-527 | computes the 32-bit FNV-1a hash that the chains are keyed by |
| `HpackDeflater.SearchStaticTable` | managed_components/espressif__nghttp/nghttp2/lib/nghttp2_hd.c:1173-1195 | the loop over a name's run of static entries finds what the scan of the run finds, and otherwise gives the name alone |
| `HpackFormat.StaticScanIsFirst` | managed_components/espressif__nghttp/nghttp2/lib/nghttp2_hd.c:1183-1193 | the scan finds the first entry of the name's run with that value, and none only if the run has none |
| `HpackDeflater.NumberGivesIndex` | managed_components/espressif__nghttp/nghttp2/lib/nghttp2_hd.c:1217-1218 | the difference of sequence numbers is the entry's wire index, also across the wrap of the counter |
| `HpackDeflater.Deflater.SearchTable` | managed_components/espressif__nghttp/nghttp2/lib/nghttp2_hd.c:1197-1222 | finds what a linear search of both tables would find, as an index the inflater understands |
| `HpackDeflater.Deflater.DeflateNv` | managed_components/espressif__nghttp/nghttp2/lib/nghttp2_hd.c:1343-1439 | appends the field's octets and changes the table as the specification of one field says, as far as there is room |
| `HpackDeflater.Deflater.DeflateHead` | managed_components/espressif__nghttp/nghttp2/lib/nghttp2_hd.c:1451-1473 | writes the updates that are due and owes none afterwards |
| `HpackDeflater.Deflater.DeflateBlock` | managed_components/espressif__nghttp/nghttp2/lib/nghttp2_hd.c:1441-1490 | writes one block and reaches the state after it; if it does not fit the deflater is unusable and refuses everything from then on |
| `HpackDeflater.Deflater.ChangeTableSize` | managed_components/espressif__nghttp/nghttp2/lib/nghttp2_hd.c:1246-1260 | evicts at once and remembers the smallest size since the last block |
| `HpackInflater.Inflater.constructor` | managed_components/espressif__nghttp/nghttp2/lib/nghttp2_hd.c:725-759 | starts in the octet machine's initial state |
| `HpackInflater.Inflater.ReadLen` | managed_components/espressif__nghttp/nghttp2/lib/nghttp2_hd.c:1659-1686 | a number read from a chunk is the number the octet machine reads, or is refused by both |
| `HpackInflater.Inflater.StartRepresentation` | managed_components/espressif__nghttp/nghttp2/lib/nghttp2_hd.c:1915-1960 | the first octet selects the state that the octet machine selects, and is used up only for a new name |
| `HpackInflater.Inflater.DoTableSize` | managed_components/espressif__nghttp/nghttp2/lib/nghttp2_hd.c:1961-1979 | a size update within both limits shrinks the table; any other is refused |
| `HpackInflater.Inflater.DoIndex` | managed_components/espressif__nghttp/nghttp2/lib/nghttp2_hd.c:1980-2026 | index zero and indices past both tables are refused, an indexed field is handed out, an indexed name awaits its value |
| `HpackInflater.Inflater.DoName` | managed_components/espressif__nghttp/nghttp2/lib/nghttp2_hd.c:2090-2110 | name octets, as the octet machine takes them |
| `HpackInflater.Inflater.DoNameHuff` | managed_components/espressif__nghttp/nghttp2/lib/nghttp2_hd.c:2068-2089 | Huffman-coded name octets, as the octet machine takes them |
| `HpackInflater.Inflater.TakeValue` | managed_components/espressif__nghttp/nghttp2/lib/nghttp2_hd.c:2156-2225 | value octets, as the octet machine takes them, complete or not |
| `HpackInflater.Inflater.CommitLiteral` | managed_components/espressif__nghttp/nghttp2/lib/nghttp2_hd.c:1771-1849 | the literal is inserted if marked and handed out with its never-indexed mark, also when its name is evicted by its own insertion |
| `HpackInflater.Inflater.InflateHdNv` | managed_components/espressif__nghttp/nghttp2/lib/nghttp2_hd.c:1892-2259 | one call hands out the first field of what the octet machine makes of the chunk, or uses all of it, or refuses; it ends a final chunk only between representations |
| `HpackInflater.Inflater.InflateBlock` | managed_components/espressif__nghttp/nghttp2/lib/nghttp2_session.c:3941-4058 | the caller's loop over a chunk hands out all fields of the octet machine's run and ends in its state, or fails after the same fields |
| `HpackInflater.Inflater.EndHeaders` | managed_components/espressif__nghttp/nghttp2/lib/nghttp2_hd.c:2261-2265 | the next block may begin |
| `HpackInflater.Inflater.ChangeTableSize` | managed_components/espressif__nghttp/nghttp2/lib/nghttp2_hd.c:1262-1293 | between blocks a smaller limit shrinks the table and makes an update obligatory; within a block the change is refused; a failure before makes no difference |
| `HpackBound.DeflateBound` | managed_components/espressif__nghttp/nghttp2/lib/nghttp2_hd.c:1569-1594 | computes twelve octets, twelve for every field, and the lengths of all names and values |
| `HpackBound.FieldFits` | managed_components/espressif__nghttp/nghttp2/lib/nghttp2_hd.c:1580-1591 | the room counted for a field is too small, and then by one octet, if and only if it is sent with a new name and neither of its strings of 2^28 + 127 octets or more is shortened |
| `HpackBound.BlockFits` | managed_components/espressif__nghttp/nghttp2/lib/nghttp2_hd.c:1569-1594 | a block never exceeds the bound by more than the number of such fields |
| `HpackBound.SingleFieldExact` | managed_components/espressif__nghttp/nghttp2/lib/nghttp2_hd.c:1569-1594 | the bound holds for a single field in every state of the deflater if and only if its name has a static entry or it is not such a field |
| `HpackBound.ReservedTooLittle` | managed_components/espressif__nghttp/nghttp2/lib/nghttp2_hd.c:1569-1594 | a reachable state and a field for which the bound is one octet too small |
| `RobinHood.MaskedArithmetic` | managed_components/espressif__nghttp/nghttp2/lib/nghttp2_map.c:102-105 | masking wrapped 64-bit differences computes circular distances |
| `RobinHood.HashesDiffer` | managed_components/espressif__nghttp/nghttp2/lib/nghttp2_map.c:94-96 | different keys have different hashes |
| `RobinHood.WayIsFull` | managed_components/espressif__nghttp/nghttp2/lib/nghttp2_map.c:151-181 | from an entry's home to its bucket every bucket is full and no entry on the way is nearer to its own home than the probe |
| `RobinHood.StopMeansAbsent` | managed_components/espressif__nghttp/nghttp2/lib/nghttp2_map.c:262-270 | a probe that meets an empty bucket or an entry nearer to its home than the probe has gone has proved the key absent |
| `RobinHood.PlacingKeepsOrder` | managed_components/espressif__nghttp/nghttp2/lib/nghttp2_map.c:161-169 | putting the carried entry into an empty bucket or in the place of one nearer to its home keeps the invariant |
| `RobinHood.EmptyBucket` | managed_components/espressif__nghttp/nghttp2/lib/nghttp2_map.c:223-236 | a table with more buckets than entries has an empty bucket, so that every probe ends |
| `RobinHood.ShiftKeepsOrder` | managed_components/espressif__nghttp/nghttp2/lib/nghttp2_map.c:304-317 | moving the next entry back into the gap leaves all in order but for the new gap |
| `RobinHoodMap.Insert` | managed_components/espressif__nghttp/nghttp2/lib/nghttp2_map.c:151-181 | a new key's entry is added to the represented map and a key already there changes nothing, whatever is displaced on the way |
| `RobinHoodMap.ShiftBack` | managed_components/espressif__nghttp/nghttp2/lib/nghttp2_map.c:301-317 | closing the gap restores the invariant and keeps the represented map |
| `RobinHoodMap.HashMap.Find` | managed_components/espressif__nghttp/nghttp2/lib/nghttp2_map.c:248-276 | returns exactly what the map holds for the key |
| `RobinHoodMap.HashMap.Resize` | managed_components/espressif__nghttp/nghttp2/lib/nghttp2_map.c:185-216 | the longer table represents the same map, and no entry is met twice on the way; for length 0 nothing changes |
| `RobinHoodMap.HashMap.Add` | managed_components/espressif__nghttp/nghttp2/lib/nghttp2_map.c:218-246 | adds a new key or refuses an old one with the content unchanged, also when the table grew first; it fails exactly when the longest table is asked to grow |
| `RobinHoodMap.HashMap.Remove` | managed_components/espressif__nghttp/nghttp2/lib/nghttp2_map.c:278-327 | removes exactly the key, or reports that it is not there |
| `RobinHoodMap.HashMap.Clear` | managed_components/espressif__nghttp/nghttp2/lib/nghttp2_map.c:329-336 | the map is empty and the table stays |
| `MapGrowth.Growth` | managed_components/espressif__nghttp/nghttp2/lib/nghttp2_map.c:223-236 | the 32-bit load test and doubling leave room for one more entry and an empty bucket exactly unless the table has 2^31 buckets and 2^29 entries or more; then the length asked for is 0 |
| `MapGrowth.RunBelow` | managed_components/espressif__nghttp/nghttp2/lib/nghttp2_map.c:223-236 | over any run in which keys are only put in while there are fewer than 0x3000_0000 entries, the table can grow whenever it must |
| `MapGrowth.InsertionsSucceed` | managed_components/espressif__nghttp/nghttp2/lib/nghttp2_map.c:223-236 | new keys can be put into an empty map if and only if there are at most 805306369 of them |
| `Jsmn.Resumption` | managed_components/espressif__jsmn/include/jsmn.h:272-458 | a run that ends for want of tokens continues with more of them to the same end as one run with all of them; any other run ends the same with more |
| `Jsmn.GrowingIsOneRun` | managed_components/espressif__jsmn/include/jsmn.h:272-458 | the same for any number of enlargements |
| `Jsmn.MoreText` | managed_components/espressif__jsmn/include/jsmn.h:272-458 | more text may be appended after a run that came to its end or to an incomplete string: parsing on is like one run over all of it, exactly unless the cut goes through a primitive |
| `Jsmn.CountAgrees` | managed_components/espressif__jsmn/include/jsmn.h:272-458 | a run without a token array returns the count that any successful run with one returns |
| `Jsmn.CountSuffices` | managed_components/espressif__jsmn/include/jsmn.h:272-458 | the count is exactly the number of tokens needed: with as many a run succeeds, with fewer it runs out |
| `Jsmn.CountRefuses` | managed_components/espressif__jsmn/include/jsmn.h:272-458 | a bad or incomplete string and a bad primitive are reported without a token array as with one |
| `Jsmn.TokensAreWellNested` | managed_components/espressif__jsmn/include/jsmn.h:272-458 | after success the starts increase strictly, every range lies in the text, containers begin and end on their own brackets, and any two ranges are nested or disjoint |
| `Jsmn.ScanIsStack` | managed_components/espressif__jsmn/include/jsmn.h:313-365 | the backward scan is a stack: brackets push and pop, a closing bracket is accepted exactly when it matches the top, and the new top becomes superior |
| `Jsmn.OpenMeansContainer` | managed_components/espressif__jsmn/include/jsmn.h:384-401 | the comma's search for an open container is the same search |
| `JsmnParser.Parser.ParsePrimitive` | managed_components/espressif__jsmn/include/jsmn.h:137-191 | stores the primitive that starts here, puts the position back when there is no token or a bad octet, and stops on its last octet |
| `JsmnParser.Parser.ParseString` | managed_components/espressif__jsmn/include/jsmn.h:196-267 | stores the string that starts here, with escapes checked; on any failure the position is put back |
| `JsmnParser.Parser.CloseBracket` | managed_components/espressif__jsmn/include/jsmn.h:313-365 | closes the innermost open container if it is of the bracket's kind |
| `JsmnParser.Parser.Comma` | managed_components/espressif__jsmn/include/jsmn.h:384-401 | makes the innermost open container superior again after a key's value |
| `JsmnParser.Parser.JsmnParse` | managed_components/espressif__jsmn/include/jsmn.h:272-458 | does in place what the machine on values does, or only counts |
| `JsmnDocument.ValueRun` | managed_components/espressif__jsmn/include/jsmn.h:272-458 | reading any value in any place of a document adds its tokens and one child to its owner |
| `JsmnDocument.DocumentTokens` | managed_components/espressif__jsmn/include/jsmn.h:272-458 | tokenizing any JSON text, with any white space, gives exactly the tokens of the document it spells: kinds, extents, order and numbers of children |
| `JsmnDocument.StringExactly` | managed_components/espressif__jsmn/include/jsmn.h:196-267 | a string is closed exactly at the first quote behind a body of complete escapes |
| `JsmnDocument.StringRefused` | managed_components/espressif__jsmn/include/jsmn.h:196-267 | a string is refused, rather than called incomplete, exactly if no text behind it could close it |
| `JsmnDocument.PrimitiveExactly` | managed_components/espressif__jsmn/include/jsmn.h:137-191 | a primitive ends before white space, a comma, a colon, a closing bracket or the end, and any other octet that is not printable refuses it |
| `Crc16.OctetRun` | main/src/crc16.cpp:8-22 | an octet at a time with eight shifts is the bit-serial division, lowest bit first |
| `Crc16.Crc16GetFromSeed` | main/src/crc16.cpp:3-23 | returns the bit-serial remainder of the first octets of the buffer |
| `Crc16.Crc16Get` | main/src/crc16.cpp:33-36 | the same from the all-ones seed |
| `Crc16.Residue` | main/src/crc16.cpp:3-36 | a message followed by its remainder, low octet first, leaves none |
| `Crc16.BurstDetected` | main/src/crc16.cpp:3-36 | any change confined to sixteen consecutive bits, at any offset in messages of any length, changes the remainder |
| `Crc16.OddErrorsDetected` | main/src/crc16.cpp:3-36 | any odd number of changed bits changes the remainder |
| `Crc16Division.CrcIsRemainder` | main/src/crc16.cpp:3-36 | the checksum is the remainder of dividing the message, with sixteen zeros behind it and the seed on its first bits, by x^16 + x^15 + x^2 + 1 |
| `Crc16Division.BitsInOrder` | main/src/crc16.cpp:8-22 | the message's bits are those of its octets in order, the lowest of each first |
| `QBus.BurstRejected` | main/src/qbus_s.cpp:76-102 | a valid frame changed within sixteen consecutive bits is rejected |
| `QBus.NeighboursRejected` | main/src/qbus_s.cpp:76-102 | a valid frame changed in two neighbouring octets in any way is rejected |
| `QBus.OddChangesRejected` | main/src/qbus_s.cpp:76-102 | a valid frame with an odd number of changed bits is rejected |
| `QBus.KeptAllMeaning` | main/src/qbus_s.cpp:296-309 | of a frame too long for the buffer the first octets and the very last one are kept |
| `QBus.ReadLaw` | main/src/iot_qbus.cpp:147-181 | a request for any run of the eleven registers from 0x1000 on returns just these in order; any other is answered with the error bit and code 2 |
| `QBus.WriteLaw` | main/src/iot_qbus.cpp:46-145 | writing one of the seven writable registers is accepted, anything else is answered with the error bit and code 2 |
| `QBus.UnknownLaw` | main/src/qbus_s.cpp:109-221 | any other function code is answered with the error bit alone and code 1 |
| `QBus.Slave.PortByteReceived` | main/src/qbus_s.cpp:296-309 | appends the octet, or overwrites the last one of a full buffer, never leaving the buffer; a reply waiting there stays valid exactly if the octet is stored behind it or changes nothing |
| `QBus.Slave.ValidateFrame` | main/src/qbus_s.cpp:76-102 | accepts exactly frames of seven octets or more without a remainder |
| `QBus.Slave.ReadRegisters` | main/src/iot_qbus.cpp:147-181 | copies the registers asked for behind the request's header |
| `QBus.Slave.ProcessFrame` | main/src/qbus_s.cpp:109-222 | the reply keeps address and length, marks errors, and is always accepted by the other side's validator |
| `QBus.Slave.PortTxEmpty` | main/src/qbus_s.cpp:311-329 | sends the waiting frame whole and once, and then listens again |
| `QBus.Slave.Poll` | main/src/qbus_s.cpp:244-294 | a reply is prepared only for a valid frame and is then valid itself, and what is sent is the reply in the buffer |
| `FlowControl.AdjustConserves` | managed_components/espressif__nghttp/nghttp2/lib/nghttp2_helper.c:155-214 | what the peer may send grows by exactly the increment left to announce, which is never negative, and all bounds are kept |
| `FlowControl.IncreaseConserves` | managed_components/espressif__nghttp/nghttp2/lib/nghttp2_helper.c:216-246 | the same for the other way of growing |
| `FlowControl.ReceiveConserves` | managed_components/espressif__nghttp/nghttp2/lib/nghttp2_session.c:5512-5552 | data is refused exactly when it is more than the peer may send, and returned credit is announced in full |
| `FlowControl.ReceiveReturns` | managed_components/espressif__nghttp/nghttp2/lib/nghttp2_session.c:5512-5552 | with updates on, what has been received is returned whole as soon as it is half of the window, so that less than half stays unreturned |
| `FlowControl.ChangeRefused` | managed_components/espressif__nghttp/nghttp2/lib/nghttp2_helper.c:155-246 | a change is refused exactly if the size would leave the range from 0 to 2^31 - 1, and otherwise the size changes by just what is not covered by data received |
| `FlowControl.SetSizeSets` | managed_components/espressif__nghttp/nghttp2/lib/nghttp2_submit.c:426-500 | any size from 0 to 2^31 - 1 is accepted and is the window's size afterwards, with credit conserved |
| `FlowControl.IncreaseUndoesReduction` | managed_components/espressif__nghttp/nghttp2/lib/nghttp2_helper.c:216-246 | growing by what the window was reduced by restores it with nothing announced |
| `FlowControl.AdjustUndoesReduction` | managed_components/espressif__nghttp/nghttp2/lib/nghttp2_helper.c:155-214 | the other way of growing does so if and only if no more than that was waiting to be returned |
| `FlowControl.AdjustLosesTen` | managed_components/espressif__nghttp/nghttp2/lib/nghttp2_helper.c:155-214 | a window where it does not |
| `FlowControl.RunConserves` | managed_components/espressif__nghttp/nghttp2/lib/nghttp2_helper.c:155-251 | over any run of changes and data the peer may send what it could at first plus what was announced minus what it sent, and that stays between 0 and 2^31 - 1 |
| `FlowControl.Window.AdjustLocalWindowSize` | managed_components/espressif__nghttp/nghttp2/lib/nghttp2_helper.c:155-214 | does this in 32-bit arithmetic without overflow, or reports the error and changes nothing |
| `FlowControl.Window.IncreaseLocalWindowSize` | managed_components/espressif__nghttp/nghttp2/lib/nghttp2_helper.c:216-246 | the same |
| `FlowControl.Window.UpdateRecvWindowSize` | managed_components/espressif__nghttp/nghttp2/lib/nghttp2_session.c:5512-5552 | the same for data received |
| `FlowControl.Window.SetLocalWindowSize` | managed_components/espressif__nghttp/nghttp2/lib/nghttp2_submit.c:426-500 | the same for a new size |
| `Frames.HeaderRoundTrip` | managed_components/espressif__nghttp/nghttp2/lib/nghttp2_frame.c:37-51 | a frame header survives packing and unpacking if and only if its length has 24 bits and its stream identifier 31 |
| `Frames.HeaderOctets` | managed_components/espressif__nghttp/nghttp2/lib/nghttp2_frame.c:37-51 | any nine octets survive unpacking and packing but for the reserved bit |
| `Frames.HeaderLayout` | managed_components/espressif__nghttp/nghttp2/lib/nghttp2_frame.c:37-43 | the header's nine octets are length, type, flags and identifier as section 4.1 of RFC 9113 lays them out |
| `Frames.Put32Get32` | managed_components/espressif__nghttp/nghttp2/lib/nghttp2_helper.c:37-52 | the big-endian helpers keep numbers modulo 2^32 |
| `Frames.PriorityRoundTrip` | managed_components/espressif__nghttp/nghttp2/lib/nghttp2_frame.c:399-419 | a priority survives if and only if its weight is between 1 and 256 |
| `Frames.PriorityFirst` | managed_components/espressif__nghttp/nghttp2/lib/nghttp2_frame.c:387-390 | a receiver finds a priority in front of the block exactly if the flag for it is set, and it is the one sent |
| `Frames.WireReadsBack` | managed_components/espressif__nghttp/nghttp2/lib/nghttp2_frame.c:305-359 | frames written one after the other are read back as they were |
| `Frames.SplitIsOneBlock` | managed_components/espressif__nghttp/nghttp2/lib/nghttp2_frame.c:305-359 | a block is one frame of its kind with its flags, then only CONTINUATION frames on the same stream, with the end marked on the last alone; reading them back gives the parts |
| `Frames.FramePackHeadersShared` | managed_components/espressif__nghttp/nghttp2/lib/nghttp2_frame.c:305-359 | every chunk in use becomes a frame with its content as payload, in place |
| `Frames.FramePackHeaders` | managed_components/espressif__nghttp/nghttp2/lib/nghttp2_frame.c:361-397 | the payloads together are the priority, if any, and the deflated block, and the frame's length is theirs; a block that does not fit is a compression error |
| `Frames.FramePackPushPromise` | managed_components/espressif__nghttp/nghttp2/lib/nghttp2_frame.c:554-587 | the same behind the promised stream's identifier |
| `Frames.FragmentsFlat` | managed_components/espressif__nghttp/nghttp2/lib/nghttp2_frame.c:361-397 | the payloads without the fixed part concatenate to the block |
| `Frames.HeadersArrive` | managed_components/espressif__nghttp/nghttp2/lib/nghttp2_frame.c:361-397 | from one end to the other: a list deflated, cut into frames, read off the wire and inflated frame by frame is delivered as sent and both ends are in step |

## Left out

- Chunk memory (`Buffers`): the chunks of a chain are values in a sequence field of the class, not separately allocated objects, so pointers into a chunk are offsets and aliasing between chunks is not captured. `nghttp2_bufs_init3`, `add`, `addb`, `len`, `remove` and `reset` are modelled; wrapping caller-owned memory, `realloc`, `orb` and `addb_hold` are not.
- Sizes: `size_t` is a 64-bit number and all sizes stay below 2^32, except that the wraps of `first`, of the 32-bit sequence numbers and of the hash map's table length are modelled; a 32-bit `size_t` is not.
- HpackDeflater.Deflater.DeflateBlock: like all writing of header blocks, is for chunks with room behind their offset; `Buffers.Bufs.Addb` says what happens with others.
- HpackDeflater.Deflater.ChangeTableSize: the smaller of the setting and the deflater's own limit has 32 bits, as every setting on the wire has.
- RobinHoodMap.HashMap.Add: asking for a table of length 0 counts as failed allocation. Where the allocator returns a pointer for it the source goes on and writes outside of that memory.
- HpackInflater.Inflater.InflateBlock: the callbacks that the caller makes for each field, with their errors and pauses, and its resetting of the stream or session on failure.
- HuffmanGenerator.GenerateTable: reading the code table from text and printing the codes themselves for the encoder.
- Frames.FramePackHeaders: the field `padlen`, which is set to 0; likewise `Frames.FramePackPushPromise`.
- HpackBound.BlockFits: names and values are taken to be shorter than 2^32 octets. For lists of several fields the exact condition is not given, as one field's slack may pay for another's excess.
- Memory: allocation failure, custom allocators and the reference counting of names and values; names and values are immutable octet strings.
- Constant tables: the 257 Huffman codes, the 61 static entries with their hashes and the further names known to `lookup_token` are parameters. The Huffman code is any complete prefix code with lengths from 5 to 32 bits and an all-ones EOS of at least 8 bits; `lookup_token` is a search of the two name lists instead of the generated switch.
- HpackFormat.LookupToken: the numbers of well-known names outside the static table are their positions in a list, not the header's enumeration.
- HpackInflater.Inflater.InflateHdNv: the commit of a literal with an indexed name keeps no reference to the evicted entry's buffer, since names are values.
- `nghttp2_hd_deflate_hd2`, the vector variants and the query functions for table entries: wrappers around what is modelled.
- `nghttp2_map_each`, `nghttp2_map_print_distance`: iteration with callbacks.
- RobinHoodMap.HashMap.Find: the probing loop that the source writes out in find and in remove is one method here.
- Frames: padding, the other frame types and the reading side's state machine. Reading frames is a function on the octets of whole frames.
- QBus.Slave.Poll: an octet may arrive between any two turns, but not in the middle of one. The frame timeout is a parameter.
- FlowControl.ReceiveConserves: the manual mode with `consumed_size`, and `window_update_queued`, are not modelled; updates are sent when they are due or not at all.
- JSMN_STRICT and JSMN_PARENT_LINKS: only the default build. Texts are at most 2^31 - 1 octets long, so that positions fit `int`.
- JsmnParser.Parser.JsmnParse: the branch on a missing token array is taken once at the start instead of in every turn.
- JsmnDocument.DocumentTokens: words are any run of printable octets without structure, as the default build accepts; numbers are not checked further.
- QBus.Slave.ProcessFrame: the registers' contents are a parameter, and handing the tag identifier, battery level and charging state to the rest of the toy is left out, as are the effects of writing a register.
- The rest of the toy (player, downloads, Wi-Fi, Bluetooth, SD card, LEDs), the HTTP/2 session and stream logic, and structured fields.
