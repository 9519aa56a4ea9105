# A Dafny model of the tincd core

tincd is the daemon of a mesh VPN. This project models five parts of its C core in Dafny and proves what
each of them is relied on for.

- **Mesh graph** (`graph.c`, and the edge order of `edge.c`). `Mesh` holds nodes, edges, the reverse link and
  routes. `Sssp` is the queue search that computes distance, nexthop and via, as a class that extends its work
  list while walking it. `Mst` is the restarting scan that picks the spanning tree, over the connectivity facts
  of `Connectivity`.
- **HTTP/3 and QPACK** (`h3.c`). `PrefixInt`, `Huffman` and `StringLiteral` are the wire formats of RFC 7541,
  `HpackCode` the code words in use;
  `StaticTable`, `QpackTable`, `QpackStream` and `QpackDecoder` the dynamic table and its incremental decoder
  (RFC 9204), with `QpackInsn` for the encoder's side of that stream; `FieldSection` and `Request` the request
  decoder and encoder, with `FieldLines` for sections as any encoder may write them and `RequestFields` for what a
  list of fields amounts to; `FrameParser` the resumable frame parser (RFC 9114 and section 16 of RFC 9000).
- **User-space TCP bridge** (`diag.c`). `TcpBridge` is one connection with its 32-bit sequence numbers, its two
  buffers edited in place, retransmission and partial acceptance; `Checksum` the checksum of RFC 1071.
- **DNS watcher** (`dnsrefresh.c`). `DnsRefresh` is the protocol of resolver thread and event loop as interleaved
  steps, one per critical section or socket call.
- **Decoy request handling** (`decoy.c`). `UriNormalise` is the in-place URI normalisation, `ByteRanges` the
  parser of Range headers, `RangeAnswer` the filter that cuts the body accordingly.

`Bits` and `Wrappers` hold bytes, bits and optional values. Code that works in place is modelled by methods and
classes over arrays, each proved against a function of its input or old state; the theorems are about those
functions. Sockets, clocks, the resolver and random numbers are parameters or arbitrary choices. Sequence numbers
wrap at 2^32, the Huffman accumulator at 2^64, the checksum sum and the varints are checked against their widths,
and Range numbers are long longs; other counters are unbounded.

Where the code and its comments differ, the model follows the code:

- `normalise_uri` is said to refuse a NUL, but refuses only an escaped one (`UriNormalise.RawNulAccepted` and
  `UriNormalise.NulExactly`). It is also said to answer false for ".."
  above the root; for text that does not begin with a slash it may accept such a path. `UriNormalise.LawHoldsExactly`
  says exactly when; its only caller passes text that begins with a slash (`decoy.c`, lines 454 and 475).
- A cookie of 4094 to 4096 bytes is accepted as a header line, but the cookie field stays empty, and a path is limited
  to 4096 bytes by the string buffer, not by its own larger field. `Request.RequestReadBack` is stated with these limits.
- Cookie lines are said to be joined with "; "; after empty ones at the beginning the separator is left out
  (`RequestFields.AllCookies`).
- `sssp_bfs` calls itself a simple breadth-first search; nodes are queued again when they get lighter or direct. It
  ends for negative weights as well.
- The search never records a relay that is itself indirect, although `indirect` may flip back: `Sssp.OnlyWaitingShorten`
  is why.
- The checksum adds a last odd byte as it is, which on a big-endian host is not what RFC 1071 says:
  `Checksum.ByteOrderDoesNotMatter` gives the exact condition.
- The bridge frees whatever is acknowledged, also bytes it has not sent yet (`TcpBridge.UnsentDropped`); in every run
  without such an acknowledgment, and in no other, each acknowledged byte is in a segment sent (`TcpBridge.Run`).
- Edge weights are compared by their difference, which overflows for weights far apart: `Mst.CompareExactly`.

## Model

| member | source | states |
|---|---|---|
| `Mesh.ExtendRoute` | core/tincd/src/graph.c:163-217 | Following one more edge the search may use turns a route with given hops, weight and first hop into a route with one hop more, the added weight and the same first hop |
| `Mesh.RouteStartsAtMe` | core/tincd/src/graph.c:163-171 | Every non-empty route leaves `myself` over an edge that has a reverse and does not lead to a no_direct node |
| `Sssp.Search.SsspBfs` | core/tincd/src/graph.c:126-270 | For every mesh: visited is exactly reachability over edges with a reverse (minus `myself` to no_direct), distance is the least hop count, weighted_distance the least weight among hop-shortest routes, nexthop the first hop of such a route, and the routing rules hold. Of the table the search itself leaves: a direct node has a route without an indirect edge or a no_direct destination, via of every other node has such a route, and some route to the node begins with it and goes on over an edge that is indirect or leads to a no_direct node, and a neighbour is indirect exactly if its edge or its flag says so; a clear edge from a direct node to a node farther off makes that direct too, unless it has a strictly lighter route of the same length. LocalDiscovery then makes direct exactly the nodes its conditions name |
| `Sssp.Search.Reset` | core/tincd/src/graph.c:130-154 | Whatever the previous run left behind, the start state satisfies the invariant of the whole search |
| `Sssp.Search.ExamineEdge` | core/tincd/src/graph.c:163-229 | One edge either leaves table and work list alone (exactly when the code continues) or changes only its destination and queues it; the whole invariant is kept, the routes that explain indirect and via included |
| `Sssp.Search.ExamineNode` | core/tincd/src/graph.c:158-231 | A whole pass over the edges of the head of the list keeps the invariant, leaves every one of them relaxed, and either changes nothing or lowers the termination measure |
| `Sssp.Search.Exhaust` | core/tincd/src/graph.c:156-233 | The work list empties for every mesh and all integer weights, with every visited node expanded and every edge relaxed |
| `Sssp.Search.Localise` | core/tincd/src/graph.c:242-270 | Exactly the visited, unconnected LAN nodes without a declared or no_direct obstacle become direct, nothing else changes, and routes and label rules survive |
| `Sssp.ImproveSound` | core/tincd/src/graph.c:200-208 | Updated labels still describe a real route: hops, weight and first hop together |
| `Sssp.OnlyWaitingShorten` | core/tincd/src/graph.c:192-208 | A node that has been expanded is never made lighter again, although nodes are queued many times |
| `Sssp.ImproveLabelled` | core/tincd/src/graph.c:184-217 | indirect, via and prevedge stay consistent through an update: via is the node itself exactly when it is direct, otherwise a strictly nearer direct node |
| `Sssp.ImproveRelayed` | core/tincd/src/graph.c:185-229 | An update keeps, for each visited node, a route that explains its indirect flag and its via: clear of indirect edges, or clear up to via and blocked on the next edge |
| `Sssp.ImprovePreferring` | core/tincd/src/graph.c:205-229 | An update keeps, for every node that does not wait to be expanded again: its clear edges have made their ends direct, unless those have a strictly lighter route of the same length |
| `Sssp.NoneWaiting` | core/tincd/src/graph.c:156-232 | So in the end it holds of every edge |
| `Sssp.LocalisedExactly` | core/tincd/src/graph.c:242-270 | An indirect node is made direct exactly if it is reachable, shares a LAN, has no connection of its own, is not flagged and asks for no relay on any of its edges |
| `Sssp.ImproveAnchored` | core/tincd/src/graph.c:200-217 | Whoever relays for another node has been expanded or is being expanded, so its own labels are final |
| `Sssp.HeadNearest` | core/tincd/src/graph.c:156-158 | The head of the list is no farther than any visited node not yet expanded, despite re-queued nodes behind it |
| `Sssp.ImproveOrdered` | core/tincd/src/graph.c:192-229 | Queue order by distance, one-level spread and the rest of the order invariant survive appending an improved node |
| `Sssp.ImproveSettled` | core/tincd/src/graph.c:192-217 | Edges of nodes already expanded stay relaxed when another node improves |
| `Sssp.ImproveInv` | core/tincd/src/graph.c:163-229 | Every update keeps the complete search invariant |
| `Sssp.SkipDone` | core/tincd/src/graph.c:163-198 | An edge that is skipped offers its destination nothing better |
| `Sssp.PopKeeps` | core/tincd/src/graph.c:231-232 | Taking the expanded head off the list keeps the invariant |
| `Sssp.ImproveEarlier` | core/tincd/src/graph.c:192-229 | Every update lowers (unvisited nodes, total weight, indirect nodes) lexicographically, for any weights, although indirect may flip both ways |
| `Sssp.HeavinessNonNegative` | core/tincd/src/graph.c:200-208 | The weight component of the measure is bounded below even with negative weights |
| `Sssp.SumFits` | core/tincd/src/graph.c:192-205 | At every point of the search distances are below the number of nodes, and the sums of weights are ints if the number of nodes times the largest weight is |
| `Sssp.NoBetterRoute` | core/tincd/src/graph.c:126-233 | When the list is empty no route to a node has fewer hops than its distance, nor as few and less weight |
| `Sssp.EmptyListIsShortest` | core/tincd/src/graph.c:126-233 | An empty list means hop-shortest, then lightest routes for all nodes, both directions of reachability |
| `Sssp.RulesFollow` | core/tincd/src/graph.c:143-229 | No nexthop is no_direct, no via other than `myself` is no_direct or remote_no_direct, via(v) is v exactly when v is direct and otherwise a strictly nearer direct node, and distance-1 nodes keep the edge from `myself` |
| `Sssp.LocaliseKeeps` | core/tincd/src/graph.c:242-270 | Clearing indirect on one LAN node keeps all label rules |
| `Mst.MstKruskal` | core/tincd/src/graph.c:66-118 | From the first edge that leaves a reachable node, the restarting scan visits exactly the start's component and selects exactly Kruskal's tree, a spanning tree, and marks exactly the connections of its edges and their reverses |
| `Mst.LeastCrossing` | core/tincd/src/graph.c:96-117 | The edge added is the least, in the order of weight, from and to, of all usable edges that cross the visited cut, and no lighter edges join its ends |
| `Mst.GrowByOne` | core/tincd/src/graph.c:96-117 | Adding that edge keeps the growing tree a tree, inside Kruskal's |
| `Mst.ScanComplete` | core/tincd/src/graph.c:94-118 | When a full scan finds no crossing edge, the visited nodes are the component and the tree is complete |
| `Mst.StartDoesNotMatter` | core/tincd/src/graph.c:84-118 | Two start nodes of one component give the same tree |
| `Mst.TreeConnectsAsMuch` | core/tincd/src/graph.c:66-118 | Restricted to the lightest k edges, the tree connects as much as all edges of the component do |
| `Mst.RivalHasNoMore` | core/tincd/src/graph.c:66-118 | No spanning tree of the component has more edges among the lightest k |
| `Mst.MinimumWeight` | core/tincd/src/graph.c:66-118 | No spanning tree of the component weighs less |
| `Mst.FewEdgesTree` | core/tincd/src/graph.c:66-118 | A connected edge set one smaller than its nodes has no cycle |
| `Mst.MarkOne` | core/tincd/src/graph.c:104-110 | The connections of the added edge and of its reverse, and no others, join the marked set |
| `Mst.CompareExactly` | core/tincd/src/edge.c:31-47 | The comparison with its 32-bit difference is the strict order of weight, from and to if and only if the difference does not overflow; for weights that are not negative it never does |
| `PrefixInt.FieldBuffer.Put` | core/tincd/src/h3.c:172-180 | Appending grows the buffer where needed and changes nothing already in it |
| `PrefixInt.FieldBuffer.PutInt` | core/tincd/src/h3.c:188-205 | What is appended is the prefixed integer of section 5.1 of RFC 7541 (`PrefixInt.IntMeans`) |
| `PrefixInt.ReadInt` | core/tincd/src/h3.c:492-518 | The loop reads the prefixed integer at the index, with its limits of five continuation bytes and 32 bits |
| `PrefixInt.IntReadBack` | core/tincd/src/h3.c:188-205 | In any surroundings and for every prefix width, a written integer is read back exactly if it is at most 2^32 - 1, and refused otherwise |
| `PrefixInt.IntMeans` | core/tincd/src/h3.c:188-205 | The prefix holds the value or all ones, then come groups of seven bits, least significant first, whose weighted sum is the rest, each but the last with its top bit set |
| `PrefixInt.IntLen` | core/tincd/src/h3.c:816-832 | The length scan finds the length the reader would use, or asks for more, or refuses |
| `PrefixInt.ScanIntStable` | core/tincd/src/h3.c:816-832 | A verdict other than "need more" does not change when bytes are appended |
| `PrefixInt.ScanIntBack` | core/tincd/src/h3.c:816-832 | In any surroundings the scan finds exactly the bytes of a written integer, or refuses it if it is above 2^32 - 1 |
| `Huffman.HuffInit` | core/tincd/src/h3.c:525-550 | The tables built find, for each length and code, exactly the symbol with that code |
| `Huffman.HuffRow` | core/tincd/src/h3.c:533-547 | One row of the tables lists exactly the symbols of that length, in order |
| `Huffman.HuffDecode` | core/tincd/src/h3.c:554-589 | The table-driven bit loop computes bit-by-bit matching against the code, with EOS, NUL, overflow and bad padding refused |
| `Huffman.HitExactly` | core/tincd/src/h3.c:562-567 | The test after each bit succeeds exactly when the bits so far are a code word, and yields its symbol |
| `Huffman.RunString` | core/tincd/src/h3.c:554-589 | The encoding of any NUL-free string that fits decodes to it; any other is refused |
| `Huffman.RunSound` | core/tincd/src/h3.c:554-579 | Whatever has been accepted is exactly the encoding of the output, then the pending bits |
| `Huffman.DecodeExactly` | core/tincd/src/h3.c:554-589 | A byte string decodes to s if and only if it is the Huffman encoding of s with padding of ones shorter than a byte, s has no NUL, and s fits |
| `Huffman.EncodingUnique` | core/tincd/src/h3.c:228-267 | A string has one encoding only |
| `HpackCode.HpackValid` | core/tincd/src/h3_huffman.h:8-72 | The 257 code words in use are canonical, prefix-free, at most 30 bits long and EOS is all ones, so all that is proved of valid codes holds of them |
| `HpackCode.BothBranches` | core/tincd/src/h3_huffman.h:8-72 | With these code words some strings are shorter Huffman-coded and some are not |
| `StringLiteral.PutHuffman` | core/tincd/src/h3.c:249-266 | The 64-bit accumulator loop emits exactly the padded code words, although it wraps |
| `StringLiteral.PutString` | core/tincd/src/h3.c:228-267 | What is appended is the length-prefixed literal, Huffman-coded exactly when that is strictly shorter, lower-cased on request |
| `StringLiteral.ReadString` | core/tincd/src/h3.c:593-621 | The reader computes the literal at the index, both branches |
| `StringLiteral.HuffReadBack` | core/tincd/src/h3.c:593-621 | The Huffman branch inverts the encoder |
| `StringLiteral.RawReadBack` | core/tincd/src/h3.c:593-621 | The raw branch inverts the encoder |
| `StringLiteral.StringReadBack` | core/tincd/src/h3.c:228-267 | In any surroundings, a written string is read back if and only if it has no NUL and fits; otherwise it is refused |
| `QpackTable.Evicted` | core/tincd/src/h3.c:801-803 | What is left is a suffix of the live entries that fits the limit |
| `QpackTable.EvictedKeepsMost` | core/tincd/src/h3.c:801-803 | Any longer suffix would not have fitted |
| `QpackTable.InsertKeeps` | core/tincd/src/h3.c:794-812 | Insertion keeps the table a suffix of the history within capacity, and the new entry is found under its absolute index |
| `QpackTable.ResizeKeeps` | core/tincd/src/h3.c:914-926 | A change of capacity keeps the table within it |
| `QpackTable.LiveBound` | core/tincd/src/h3.c:755-761 | No reachable table holds more than max_capacity / 32 entries |
| `QpackStream.ScanInsnStable` | core/tincd/src/h3.c:853-875 | Appended bytes do not change the length found for an instruction, nor its refusal |
| `QpackStream.StringLen` | core/tincd/src/h3.c:836-849 | The length of a string literal, or more bytes needed, or too long for the table |
| `QpackStream.InsnLen` | core/tincd/src/h3.c:853-875 | The length of the instruction at the head, or more bytes needed, or invalid |
| `QpackStream.ExecuteKeeps` | core/tincd/src/h3.c:878-942 | Every instruction keeps the table invariant and only extends the history, even when a duplicate or name reference evicts its own source |
| `QpackStream.ProcessedSplit` | core/tincd/src/h3.c:944-979 | Processing a + b is processing a, then its leftover followed by b |
| `QpackStream.ProcessedKeeps` | core/tincd/src/h3.c:944-979 | The invariant holds after any stream that is accepted |
| `QpackStream.SegmentationDoesNotMatter` | core/tincd/src/h3.c:944-979 | However the encoder stream is cut into calls, it is accepted or refused alike and leaves the same table and leftover |
| `QpackInsn.ScanStringBack` | core/tincd/src/h3.c:836-849 | In any surroundings the scan finds exactly the bytes of a written literal, or refuses it if its coded length is above 4096 |
| `QpackInsn.FollowsOne` | core/tincd/src/h3.c:794-812 | What an instruction is to do, stated by its meaning: which entry joins the history, which latest entries stay, what becomes of the capacity. It determines the table after it |
| `QpackInsn.EffectFollows` | core/tincd/src/h3.c:878-942 | An instruction is accepted exactly if some table meets that statement, and leads to it: a duplicate of entry a copies the a-th insertion, a name reference takes its name, both only while it is live |
| `QpackInsn.InsnReadBack` | core/tincd/src/h3.c:853-942 | Written as section 4.3 of RFC 9204 says, with dynamic entries counted back from the latest, each instruction is taken for exactly its own bytes in front of any others, and is refused or has that effect |
| `QpackInsn.EncoderReadBack` | core/tincd/src/h3.c:944-979 | After the bytes of any sequence of accepted instructions the decoder has the table of the encoder, and nothing is left over |
| `QpackDecoder.Decoder.constructor` | core/tincd/src/h3.c:755-761 | A new decoder is valid and empty |
| `QpackDecoder.Decoder.DropOldest` | core/tincd/src/h3.c:763-769 | Shifting the array in place drops exactly the oldest entry and its size |
| `QpackDecoder.Decoder.EvictTo` | core/tincd/src/h3.c:801-803 | The eviction loop leaves the largest suffix that fits and never meets an empty table |
| `QpackDecoder.Decoder.Get` | core/tincd/src/h3.c:786-792 | The entry returned is the one inserted as number abs, or none if it was evicted or never inserted |
| `QpackDecoder.Decoder.Append` | core/tincd/src/h3.c:805-811 | The new entry takes a free slot of the array and the history grows by it |
| `QpackDecoder.Decoder.Insert` | core/tincd/src/h3.c:794-812 | An entry larger than the capacity is refused; otherwise the array is the history's suffix again |
| `QpackDecoder.Decoder.ExecuteNameRef` | core/tincd/src/h3.c:883-906 | The name is taken from the static or dynamic table before anything is evicted, and is that of the entry the instruction names (`QpackInsn.InsnReadBack`) |
| `QpackDecoder.Decoder.ExecuteLiteral` | core/tincd/src/h3.c:908-912 | A literal name and value are inserted, or the instruction refused |
| `QpackDecoder.Decoder.Execute` | core/tincd/src/h3.c:878-942 | Each of the four instructions changes the table as section 4.3 of RFC 9204 says (`QpackInsn.InsnReadBack`), or is refused exactly then |
| `QpackDecoder.Decoder.Drain` | core/tincd/src/h3.c:954-968 | All whole instructions in the buffer are executed, and what is left is the start of the next |
| `QpackDecoder.Decoder.EncoderData` | core/tincd/src/h3.c:944-979 | The call computes the processing of leftover and data together; the buffer-full refusal is never reached |
| `QpackDecoder.DecodeChunks` | core/tincd/src/h3.c:944-979 | A new decoder called chunk by chunk accepts and ends up as the whole stream in one call would have it |
| `FrameParser.ReadVarint` | core/tincd/src/h3.c:75-94 | A complete integer is read, an incomplete one leaves 0 |
| `FrameParser.VarintMeans` | core/tincd/src/h3.c:46-73 | The shortest of the four forms that has room is written: its length in the two top bits, the value in network order |
| `FrameParser.VarintReadBack` | core/tincd/src/h3.c:46-94 | Every value below 2^62 is read back from its encoding, whatever follows; larger 64-bit values lose their top two bits |
| `FrameParser.HeaderExact` | core/tincd/src/h3.c:1250-1260 | A frame header is complete at one length and at no shorter one |
| `FrameParser.HeaderStable` | core/tincd/src/h3.c:1250-1260 | Bytes after a complete header do not change it |
| `FrameParser.DeliveredSplit` | core/tincd/src/h3.c:1237-1302 | Delivering a + b is delivering a, then b from the state reached |
| `FrameParser.Parser.Collect` | core/tincd/src/h3.c:1241-1248 | Bytes are gathered behind those in the header buffer |
| `FrameParser.Parser.TakeHeader` | core/tincd/src/h3.c:1239-1284 | Taking bytes for the header and giving back the surplus is the byte-by-byte parse; n1 + n2 - hlen never underflows and the full-header refusal is never reached |
| `FrameParser.Parser.TakePayload` | core/tincd/src/h3.c:1286-1298 | One callback carries exactly the payload bytes at hand and sees what remained before them; if it stops the parser, the state stays as it was |
| `FrameParser.Parser.Parse` | core/tincd/src/h3.c:1237-1302 | A call delivers exactly the byte-by-byte parse of its input, frame ends included; it fails exactly when the callback stops it, and then the calls made are the beginning of that parse |
| `FrameParser.ChunksDoNotMatter` | core/tincd/src/h3.c:1237-1302 | For every segmentation the same is delivered: payload byte by payload byte, the last of each frame marked, one empty callback per empty frame |
| `FrameParser.GatheredIsMade` | core/tincd/src/transport_quic.c:803-827 | A callback that gathers payload until its length equals what remained finds the frames the delivered bytes make up, however they come to it |
| `FrameParser.TokensTellFramesApart` | core/tincd/src/h3.c:1237-1302 | Different sequences of frames are delivered differently, adjacent frames of one type included |
| `FrameParser.StreamReadBack` | core/tincd/src/h3.c:1237-1302 | A stream of frames, cut up in any way, comes out as exactly those frames |
| `FrameParser.ParseChunks` | core/tincd/src/h3.c:1237-1302 | The parser itself, called chunk by chunk, gives a gathering callback exactly the frames of the stream |
| `FieldSection.RicExactly` | core/tincd/src/h3.c:1103-1134 | A decoded Required Insert Count r is the one value with that encoding in the window I - M < r <= I + M, or zero for zero; everything else is refused |
| `FieldSection.BlockedStaysTheSame` | core/tincd/src/h3.c:1103-1134 | The count of a section blocked at r is still r at every later insert count below r + M |
| `FieldSection.BlockedVerdict` | core/tincd/src/h3.c:1160-1183 | A section reported blocked at r is reported so until r insertions have come and no longer, and is then decoded at r or refused |
| `FieldSection.Dynamic` | core/tincd/src/h3.c:1136-1158 | A dynamic reference yields an entry of the history below r that is still live, or nothing |
| `FieldSection.LineStable` | core/tincd/src/h3.c:1185-1225 | A field line that can be read before and after more insertions reads the same |
| `FieldSection.MeaningIsStable` | core/tincd/src/h3.c:1160-1233 | A section understood now and later, within the window, has the same fields both times |
| `StaticTable.SpecialNamesAt` | core/tincd/src/h3.c:627-732 | The static entries whose names the decoder treats specially are those of RFC 9204 and no others |
| `StaticTable.SpecialValues` | core/tincd/src/h3.c:627-732 | Their values |
| `StaticTable.EncoderNames` | core/tincd/src/h3.c:23-38 | The entries the encoder names by number have the names it takes them for |
| `FieldSection.TokenBytes` | core/tincd/src/h3.c:1013-1028 | A field name may hold the lower-case letters, the digits and the fifteen marks |
| `RequestFields.CookiesJoin` | core/tincd/src/h3.c:1063-1076 | Cookie lines taken one by one are all those there is room for, in order, joined with "; " |
| `RequestFields.AllCookies` | core/tincd/src/h3.c:1063-1076 | No separator is missing exactly if no empty cookie comes first |
| `RequestFields.KeepOneMore` | core/tincd/src/h3.c:1034-1100 | The fields gathered so far are the last method, path, authority and host, the joined cookies and all header lines in order; one more field gives those of all of them, or is refused exactly if it is improper or the header lines no longer fit |
| `FieldLines.PrefixReadBack` | core/tincd/src/h3.c:1160-1183 | A section prefix written for a count and a base, with either sign, is read as those if and only if the count is zero or in the window and the numbers fit 32 bits |
| `FieldLines.ReferredIs` | core/tincd/src/h3.c:1136-1158 | Counted down from the base or up from it, a reference finds the entry of its absolute index exactly if that is below the Required Insert Count and live |
| `FieldLines.LineReadBack` | core/tincd/src/h3.c:1185-1225 | All forms of field line, written for an absolute index, a static index or a name, are read back in any surroundings as exactly their bytes and the field they stand for, or refused exactly if it cannot be known |
| `FieldLines.SectionReadBack` | core/tincd/src/h3.c:1160-1233 | A written section of any lines is blocked until its count is reached, then understood as the fields of its lines, or refused if one is unknown or improper |
| `FieldLines.EncoderToDecoder` | core/tincd/src/h3.c:944-1233 | After an encoder's instructions, cut into calls anyhow, a section written for its table is understood as the fields it stands for |
| `Request.ReadDynamic` | core/tincd/src/h3.c:1149-1157 | The lookup yields the entry the reference names, below the Required Insert Count only |
| `Request.ReadReference` | core/tincd/src/h3.c:1137-1158 | Static, relative and post-base references resolve as sections 4.5.2 to 4.5.5 of RFC 9204 say (`FieldLines.ReferredIs`) |
| `Request.ReadLine` | core/tincd/src/h3.c:1185-1225 | Each of the five forms of field line is read, or refused |
| `Request.ReadRequest` | core/tincd/src/h3.c:1160-1233 | The whole section is decoded to fields, blocked, or malformed; for every written section to the fields it was written for (`FieldLines.SectionReadBack`) |
| `Request.PutIndexed` | core/tincd/src/h3.c:208-210 | The indexed line of a static entry is appended |
| `Request.PutLiteralRef` | core/tincd/src/h3.c:290-292 | The literal line with static name is appended |
| `Request.HeadersFrame` | core/tincd/src/h3.c:295-310 | The section is framed as one HEADERS frame |
| `Request.H3Request` | core/tincd/src/h3.c:317-343 | The bytes produced are the frame of the request's field section |
| `Request.PartsReadBack` | core/tincd/src/h3.c:1185-1230 | Any sequence of written lines is decoded to those lines in order |
| `Request.KeepRequest` | core/tincd/src/h3.c:1034-1100 | The fields kept of the dialler's lines are its method, authority, path, cookie and header lines, or the request is refused, exactly as to sizes and line breaks |
| `Request.RequestReadBack` | core/tincd/src/h3.c:317-343 | For all NUL-free values the listener understands the request if and only if it is acceptable, whatever its table holds, and finds POST, authority, path, cookie and header lines as given |
| `Request.RequestEndToEnd` | core/tincd/src/h3.c:1237-1302 | Through framing and any segmentation the listener sees the end of the frame at the last byte of the section and nowhere else, and the section decodes as in RequestReadBack |
| `Checksum.SumWords` | core/tincd/src/diag.c:111-125 | The 32-bit sum is exact, without overflow, up to 128 KiB |
| `Checksum.InetChecksum` | core/tincd/src/diag.c:111-132 | The result is the complement of the folded sum, on either byte order |
| `Checksum.BoundIsTight` | core/tincd/src/diag.c:114-125 | Two bytes more than 128 KiB can overflow it |
| `Checksum.FoldIs` | core/tincd/src/diag.c:127-129 | The folding loop computes the residue modulo 65535, with 65535 rather than 0 for non-zero sums |
| `Checksum.Composes` | core/tincd/src/diag.c:111-132 | Checksumming b on top of the result of an even-length a is checksumming a followed by b |
| `Checksum.ZeroMeans` | core/tincd/src/diag.c:111-132 | Zero comes out exactly when the whole sum is a positive multiple of 65535 |
| `Checksum.FilledChecks` | core/tincd/src/diag.c:288-293 | A packet whose zeroed field is filled with its checksum re-checks to 0 |
| `Checksum.OneWordNoticed` | core/tincd/src/diag.c:111-132 | A change of one word is noticed, except between 0000 and ffff |
| `Checksum.TcpFilledChecks` | core/tincd/src/diag.c:134-151 | The pseudo-header path equals one checksum over source, destination, 0, protocol 6, the length in network order and the segment, and the filled segment re-checks to 0 |
| `Checksum.ByteOrderDoesNotMatter` | core/tincd/src/diag.c:111-132 | Hosts of either byte order store the same checksum bytes if and only if the length is even or the last byte is zero |
| `TcpBridge.DiffExact` | core/tincd/src/diag.c:713-722 | Signed 32-bit differences of wrapped numbers are exact within 2^31 |
| `TcpBridge.Conn.constructor` | core/tincd/src/diag.c:668-690 | A new connection is valid, past the SYN, and has answered it |
| `TcpBridge.Conn.FlushRx` | core/tincd/src/diag.c:352-388 | From the answers of the socket: how many bytes leave, in order, none lost or repeated, and whether the connection to it is over, which would-block never makes it |
| `TcpBridge.Conn.ReadLocal` | core/tincd/src/diag.c:390-413 | From the answers of the socket: which bytes extend the local stream and the buffer alike; the stream ends only by an answer that ends or fails |
| `TcpBridge.GivenIsPrefix` | core/tincd/src/diag.c:390-413 | The bytes read are a prefix of what the socket gives |
| `TcpBridge.FlushedEnds` | core/tincd/src/diag.c:352-388 | Delivery ends the local side only by an answer that fails |
| `TcpBridge.Conn.SendChunk` | core/tincd/src/diag.c:430-442 | The segment carries the local bytes at offset s - iss - 1 modulo 2^32 |
| `TcpBridge.Conn.PumpData` | core/tincd/src/diag.c:415-442 | The next bytes of the buffer go out once each, in order, until buffer, window or segment limit is used up and no further: every segment begins within the window of the peer, bounded by 1024 and 16384, and there are at most as many as asked for |
| `TcpBridge.Conn.PumpTx` | core/tincd/src/diag.c:415-453 | FIN goes out exactly when everything before it has been sent and the local side has ended; data as far as the window and the limit allow |
| `TcpBridge.Conn.ProcessAck` | core/tincd/src/diag.c:713-743 | An acknowledgment frees exactly the bytes it covers; fin_acked is set exactly by an acknowledgment of the whole local stream and FIN; all acknowledged bytes have gone out unless it covers some that have not |
| `TcpBridge.Conn.TakeFinAck` | core/tincd/src/diag.c:736-740 | With FIN acknowledged nothing is left to send |
| `TcpBridge.Conn.DropTx` | core/tincd/src/diag.c:728-734 | Moving the buffer down keeps it the unacknowledged part of the local stream |
| `TcpBridge.Conn.CompactRx` | core/tincd/src/diag.c:754-761 | Moving the receive buffer down keeps what is not yet delivered |
| `TcpBridge.Conn.AppendRx` | core/tincd/src/diag.c:763-771 | Accepted bytes extend the stream and rcv_nxt counts them, modulo 2^32 |
| `TcpBridge.Conn.ProcessPayload` | core/tincd/src/diag.c:747-775 | Of a segment exactly the bytes at and after rcv_nxt that fit are accepted |
| `TcpBridge.Conn.ProcessFin` | core/tincd/src/diag.c:777-784 | FIN is taken once, and exactly where the next byte would be |
| `TcpBridge.Conn.HandlePacket` | core/tincd/src/diag.c:704-805 | Any segment for a connection keeps: delivered then buffered bytes are the accepted ones, everything sent is true of the local stream and acknowledges only accepted bytes; data and FIN are answered, acknowledgments free exactly what they cover, RST closes, and a SYN for it (lines 591-602) is answered again or closes |
| `TcpBridge.PassesMeans` | core/tincd/src/diag.c:721-734 | An acknowledgment covers bytes that have not gone out exactly when it is for a position beyond what has, while such bytes wait |
| `TcpBridge.UnsentDropped` | core/tincd/src/diag.c:721-734 | Such an acknowledgment makes the bridge drop bytes although no data segment has been sent |
| `TcpBridge.Conn.Respond` | core/tincd/src/diag.c:786-803 | What is accepted is acknowledged, by data, FIN or a bare acknowledgment; the connection ends exactly when both sides have |
| `TcpBridge.Conn.Abandon` | core/tincd/src/diag.c:462-472 | When the local connection fails the peer gets one reset and the connection ends |
| `TcpBridge.Conn.IoReady` | core/tincd/src/diag.c:455-494 | Socket events keep all of it, accept nothing from the peer, and read or deliver only when the socket is ready |
| `TcpBridge.Conn.Timer` | core/tincd/src/diag.c:496-530 | A timeout sends again from the first unacknowledged byte, and keeps all of it |
| `TcpBridge.StreamStep` | core/tincd/src/diag.c:745-784 | A segment of the peer's stream within 2^31 of the position extends the accepted prefix or leaves it, and FIN is taken only at the end of the stream |
| `TcpBridge.OnePacket` | core/tincd/src/diag.c:704-805 | A packet takes the connection from one snapshot to the next as the step relation says: which bytes are accepted, whether FIN is taken, what is acknowledged, that no more is sent than the new window and eight segments allow, and whether it closes |
| `TcpBridge.StepTracks` | core/tincd/src/diag.c:745-784 | A connection that has accepted a prefix of the peer's stream still has after any segment of that stream within 2^31 of its position, however long the stream |
| `TcpBridge.TraceTracks` | core/tincd/src/diag.c:704-805 | In every run whose packets are each the stream within 2^31 of the position met, a prefix of the stream has been accepted at every point, all of it once FIN is taken |
| `TcpBridge.AllOutExactly` | core/tincd/src/diag.c:430-442 | The first offset not carried by any segment sent counts what has gone out: n is at most it if and only if all bytes before n are in some segment |
| `TcpBridge.SentDoesNotPass` | core/tincd/src/diag.c:721-734 | An acknowledgment of no more than tx_sent_offset bytes never covers bytes that have not gone out |
| `TcpBridge.TraceAcks` | core/tincd/src/diag.c:713-743 | At every point of every run each acknowledged byte is in some segment sent if and only if no packet so far acknowledged one that was not |
| `TcpBridge.Run` | core/tincd/src/diag.c:704-805 | Any run of lost, repeated, overlapping and reordered segments, socket events and timeouts is a trace of snapshots with the segments sent, each following from the one before, with nothing sent beyond the window of the peer; the accepted bytes are a prefix of the peer's stream, all of it once FIN is taken, and each acknowledged byte is in some segment sent if and only if no packet of the trace acknowledged one that was not |
| `DnsRefresh.AnswersInOrder` | core/tincd/src/dnsrefresh.c:565-593 | Two reversals by prepending leave a batch's answers in the order the watch list had when it was queued |
| `DnsRefresh.NoticedKept` | core/tincd/src/dnsrefresh.c:319-440 | A non-empty done list always has a wake byte, a worker about to send one, or a loop between drain and take |
| `DnsRefresh.OrderKept` | core/tincd/src/dnsrefresh.c:319-440 | Answers applied, waiting and being resolved stay in strict order of batch and place through every step, stale batches replaced or not, the watch list rebuilt or not |
| `DnsRefresh.ConservedKept` | core/tincd/src/dnsrefresh.c:771-819 | Every published answer stays accounted for |
| `DnsRefresh.RemembersKept` | core/tincd/src/dnsrefresh.c:651-705 | The remembered addresses are what the answers and rebuilds give in order: an address is listed by the latest live answer since its name has been watched, or came from disk; names no longer watched are forgotten |
| `DnsRefresh.ReplacedExactly` | core/tincd/src/dnsrefresh.c:651-705 | Exactly a live answer that does not list the remembered address replaces it, by its first address |
| `DnsRefresh.StaysAlong` | core/tincd/src/dnsrefresh.c:651-705 | Over any run, an address that every live answer lists stays the one remembered while its name is watched |
| `DnsRefresh.InvAlong` | core/tincd/src/dnsrefresh.c:319-440 | All invariants hold along every interleaving |
| `DnsRefresh.NoneStranded` | core/tincd/src/dnsrefresh.c:771-819 | Whenever answers wait and both threads rest, the loop can be woken |
| `DnsRefresh.AppliedOnceInOrder` | core/tincd/src/dnsrefresh.c:771-806 | Over every run each job's answer is applied at most once, and in the order batches were taken |
| `DnsRefresh.NothingLostOrInvented` | core/tincd/src/dnsrefresh.c:565-593 | Published answers are exactly those applied, being applied, waiting, or freed as stale |
| `DnsRefresh.DrainAll` | core/tincd/src/dnsrefresh.c:809-819 | From the drain, the loop's own steps apply all that waits |
| `DnsRefresh.EventuallyApplied` | core/tincd/src/dnsrefresh.c:809-819 | From every reachable resting state with answers waiting, the loop's own steps apply all of them in order |
| `UriNormalise.NormaliseUri` | core/tincd/src/decoy.c:238-306 | The in-place loop computes the character-by-character pass for its buffer size, and never writes outside the buffer |
| `UriNormalise.RefusedExactly` | core/tincd/src/decoy.c:226-259 | A character is refused exactly for an escape that is cut off, has a character in neither digit string, or is "%00" |
| `UriNormalise.EncodedDecodes` | core/tincd/src/decoy.c:226-259 | A text each of whose characters is written as itself (but "%") or as "%" and its two digits, the high one first, in either case (but NUL), is decoded to it |
| `UriNormalise.DecodedExactly` | core/tincd/src/decoy.c:226-259 | A text is decoded to a path if and only if it is one of those spellings of the path |
| `UriNormalise.SettleInPlace` | core/tincd/src/decoy.c:273-285 | "/./" and "/../" are taken off the end of the buffer in place, or the text is refused |
| `UriNormalise.FinishInPlace` | core/tincd/src/decoy.c:290-305 | A trailing "." or ".." is resolved and the result must begin with a slash |
| `UriNormalise.PutSlash` | core/tincd/src/decoy.c:265-287 | A slash on the buffer is one segment entered on a stack of segments |
| `UriNormalise.FedResolves` | core/tincd/src/decoy.c:238-306 | Editing the buffer in place is resolution on a stack of segments |
| `UriNormalise.NormalisedIsResolved` | core/tincd/src/decoy.c:238-306 | Whenever an absolute path is accepted, in a buffer of any size, the result is percent-decoding followed by stack resolution |
| `UriNormalise.NormalisesExactly` | core/tincd/src/decoy.c:238-306 | If the decoded path fits, it is accepted exactly when it resolves |
| `UriNormalise.ResultIsClean` | core/tincd/src/decoy.c:238-306 | The result starts with "/" and has no empty interior, "." or ".." segment |
| `UriNormalise.CleanIsFixed` | core/tincd/src/decoy.c:238-306 | A path of that form resolves to itself |
| `UriNormalise.ResolvingTwice` | core/tincd/src/decoy.c:238-306 | Normalising twice is normalising once |
| `UriNormalise.RelativeTextEscapes` | core/tincd/src/decoy.c:238-306 | The law fails without a leading slash: "../..//" is accepted as "/" |
| `UriNormalise.RawNulAccepted` | core/tincd/src/decoy.c:245-259 | A raw NUL is accepted: a slash and a NUL come out as they are |
| `UriNormalise.NulExactly` | core/tincd/src/decoy.c:245-259 | Text that is decoded at all holds a NUL if and only if there is a raw one in it; only escaped ones are refused |
| `UriNormalise.FedAny` | core/tincd/src/decoy.c:238-306 | What the pass makes of every decoded text, absolute or not, in terms of its segments |
| `UriNormalise.LawHoldsExactly` | core/tincd/src/decoy.c:238-306 | Acceptance and result follow the stack resolution of absolute paths if and only if the text is absolute or its leading names are not taken away again by ".." |
| `ByteRanges.ReadNumber` | core/tincd/src/decoy.c:1261-1267 | Digits accumulate within a long long; the guard refuses before any overflow |
| `ByteRanges.ReadSpec` | core/tincd/src/decoy.c:1249-1321 | One range is read with all its spaces, and its bounds are those of the range as written, in long long arithmetic |
| `ByteRanges.ParseRanges` | core/tincd/src/decoy.c:1243-1350 | The loop fills the two arrays with the ranges served and tells 416, whole body and count apart |
| `ByteRanges.RangesServable` | core/tincd/src/decoy.c:1243-1350 | A positive result is at most max ranges, each 0 <= start < end <= len, together no longer than the body |
| `ByteRanges.ResolveSelects` | core/tincd/src/decoy.c:1310-1321 | The bounds enclose exactly the positions section 14.1.2 of RFC 9110 selects |
| `ByteRanges.NumberIs` | core/tincd/src/decoy.c:1261-1267 | A number is refused exactly when it is above 9223372036854775799 |
| `ByteRanges.Recognises` | core/tincd/src/decoy.c:1252-1308 | A range is accepted if and only if it is written in the grammar of spaces, numbers and "-" |
| `ByteRanges.RangesExactly` | core/tincd/src/decoy.c:1243-1350 | For every text the answer is the one the list of ranges as a whole determines: the satisfiable ranges in order, or 416, or the whole body |
| `ByteRanges.SomeReading` | core/tincd/src/decoy.c:1243-1350 | Every text has such a list of ranges |
| `RangeAnswer.HeadFits` | core/tincd/src/decoy.c:1419-1435 | No part header outgrows the room set aside for it |
| `RangeAnswer.EmitParts` | core/tincd/src/decoy.c:1419-1437 | The buffer is always large enough and ends up holding exactly the multipart layout of the slices |
| `RangeAnswer.ReceivedBack` | core/tincd/src/decoy.c:1425-1437 | A client that takes the boundary from the type of the answer reads back exactly the requested slices with their types, positions and the total length, in order, even if the body contains the boundary |
| `RangeAnswer.DecimalReadsBack` | core/tincd/src/decoy.c:1400-1431 | A printed position has the value printed |
| `RangeAnswer.SpanReadBack` | core/tincd/src/decoy.c:1396-1403 | The Content-Range of a single slice says its first and last position and the length of the body |
| `RangeAnswer.BoundaryReadsBack` | core/tincd/src/decoy.c:1413-1416 | The boundary is a numeral of the counter, so that no two within 2^64 answers are the same |
| `RangeAnswer.SameNameMeans` | core/tincd/src/decoy.c:732-740 | Names are compared but for the case of letters |
| `RangeAnswer.ByteRangeExactly` | core/tincd/src/decoy.c:1361-1363 | A Range header is looked at exactly if it is "bytes=" in any case with something after it |
| `RangeAnswer.RefusalPage` | core/tincd/src/decoy.c:797-815 | The 416 page, word for word |
| `RangeAnswer.Answer.ListFind` | core/tincd/src/decoy.c:732-740 | The first header of that name, in any case, or none |
| `RangeAnswer.Answer.ListDel` | core/tincd/src/decoy.c:742-754 | The first header of that name leaves the list and no other |
| `RangeAnswer.Answer.ErrorAnswer` | core/tincd/src/decoy.c:797-828 | The error page replaces status, reason, body, type and length, ETag and Accept-Ranges leave the list, and the connection is kept or ended as the status asks |
| `RangeAnswer.Answer.ServeOne` | core/tincd/src/decoy.c:1396-1411 | The slice is moved to the front in place; Content-Length is its length, and Content-Range names it |
| `RangeAnswer.Answer.ServeMany` | core/tincd/src/decoy.c:1413-1442 | The body becomes the multipart layout, Content-Length its length |
| `RangeAnswer.Answer.FilterRange` | core/tincd/src/decoy.c:1356-1449 | The answer becomes exactly what the request asks: whole body, 416 page with its Content-Range, or the ranges of the original body, with matching status line, header list and Content-Length, and the boundary counter counts the multipart answers; for HEAD the ranges leave no body, while whole body and page stay for the caller to drop (line 1577) |

## Left out

- Sockets, files, logging, timers, scripts and memory management in all five parts; what `send`, `recv`, `connect` and `getaddrinfo` return is arbitrary within their contracts.
- Graph: `options`, address updates, `prev_nexthop` and `check_reachability`; names are numbers in the order of the names; the edge list is in the strict order of weight, from and to, as the comparison gives it when no difference of weights overflows.
- Sssp.Search.SsspBfs: sums of weights are unbounded numbers; `Sssp.SumFits` says when they are ints at every point of the search, beyond that overflow is not captured.
- Mst.MstKruskal: visited flags and connection marks are sets returned by the method, not fields of nodes and connections.
- QPACK: responses (`h3_from_http1`, `h3_response_ok`), section acknowledgments, increments and stream cancellation, and the control stream preamble.
- Request.H3Request: a field section of 2^62 bytes or more is not considered.
- Insert counts and stream positions are unbounded where the code has 64 bits.
- TCP bridge: the table of connections, slot eviction, reset answers for unknown connections, the wire layout of headers, `shutdown` of the local socket, and the retransmission counter, which appears as the timer's choice to give up.
- TcpBridge.Run: a packet is a value handed to the connection; which packets arrive is arbitrary, so no promise is made that data eventually gets through.
- TcpBridge.Conn.HandlePacket: is about a connection that exists; the lookup, a first SYN beyond the state it leaves, and the answers for unknown connections are left out.
- TCP bridge: ICMP probes and control messages.
- DNS watcher: where a rebuilt watch list and the saved addresses come from, the first pass of `dnsrefresh_handle_results` and what follows from a changed address, and answers whose first record does not fit a socket address. One `recv` is one wake byte.
- DNS watcher: `pthread_cond_wait` is waiting for work; spurious wake-ups change nothing and are not steps of their own.
- Decoy: the site lookup, conditional requests, gzip and the upstream fetch; If-Range read as a date is a parameter.
- RangeAnswer.Answer.FilterRange: the sum of range lengths and the final Content-Length are unbounded numbers; they are at most 64 times the body length and the body length plus the part headers.
- A wide prefix in `qp_int` and `qd_int` outside 1 to 8 bits is not considered; the code uses 3 to 8.
