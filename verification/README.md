# Value-based caching between a server and a client, verified

The library sends files over one TCP connection as content-defined blocks. The server numbers each block with
a hash and remembers, per number, the last block it sent and a flag saying that the client holds it. A block the
client holds goes out as a 13-byte descriptor alone; any other block goes out as a descriptor and its bytes. The
client never answers: the server's flag is the only evidence it has. Block numbers are lossy (32-bit djb2 that
stops at the first NUL, reduced modulo a table size), so different blocks overwrite each other on both sides.

The project proves that this works: for every hash, every list of files, every collision, every interleaving of
the two sides and every way the network splits the bytes, the client rebuilds each file byte for byte. It also
proves what the caching saves, what is on disk when the connection stops half-way, and what a read that times out
does when the stream goes on later.

| file | models |
|---|---|
| `Common.dfy` | bytes, 32-bit numbers, concatenation |
| `Fingerprint.dfy` | djb2 and its closed form |
| `Chunker.dfy` | the scan of `send_file`, its declarative reading, and its locality |
| `Wire.dfy` | descriptors, messages, parsing a byte stream |
| `Protocol.dfy` | both caches and the messages on values, for an arbitrary hash |
| `Session.dfy` | whole files and connections as bytes; streams that stop; counts and accounting |
| `Bounds.dfy` | how large the caches can grow |
| `Economy.dfy` | which blocks of a file are free |
| `Async.dfy` | server, FIFO channel and client as a transition system; refinement of a protocol without caches |
| `AsyncBytes.dfy` | the same system byte by byte, with separate header and payload writes and fragmented reads |
| `Stalls.dfy` | calls of `receive_file` that time out on a stream that goes on |
| `Framing.dfy` | responses as runs of files; responses that are cut off |
| `Responses.dfy`, `AsyncResponses.dfy` | a list of files as responses, finished and open; responses in the byte-level system |
| `HeapBlock.dfy`, `Server.dfy`, `Client.dfy` | the two library classes, with their loops and in-place updates |
| `Relay.dfy` | the relay loops of `psb` and `hrd`, and both ends together |

The value-level modules take any function from byte strings to 32-bit numbers as the block hash `h`; a window's
fingerprint is `h` of its three bytes modulo 32, as in the source. The class `RabinServer` fixes `h` to djb2.
`Inserted`, `Written` and `MsgFor` are the server's `insert_block` and `write_block_to_client`; `ClientStep` is
the client's `receive_block` on one message; `Send` and `Replay` fold them over histories; `InSync` is the
agreement of the caches. Methods are proved equal to these functions, and the theorems are about them.

Assumptions: one server and one client with empty caches at connect, one connection (Integration/README.md:21);
server writes are complete and in order; files are shorter than 2^32 bytes, because the scan's counter is a
32-bit unsigned number (Server/rabinserver.cc:87); `max_size` is positive and 32 bits wide; both hosts are 64-bit
and little-endian with signed `char`, so a descriptor is 13 packed bytes.

Where comments and code disagree, the code is followed. `send_file` is said to return the number of files
(Server/rabinserver.cc:83) and `receive_file` the number of blocks added to the file (Client/rabinclient.h:55);
both return the number of blocks plus one for the end-of-file descriptor. Server/README.md says that every
descriptor is followed by a stream of bytes; one that is marked old is not.

## Model

| member | source | states |
|---|---|---|
| Fingerprint.HashFunction | Server/rabinserver.cc:204-222 | the wrapping shift-and-add loop, stopping at the first NUL, returns ((5381·33^k + Σ c_j·33^(k-1-j)) mod 2^32) mod max_size with signed bytes c_j, k being the index of the first NUL or the length |
| Fingerprint.FirstByte | Server/rabinserver.cc:211-220 | the empty string has the number 5381 mod max_size, and one byte b other than NUL has (177573 + b) mod max_size, b being negative from 128 on |
| Fingerprint.OneByteMore | Server/rabinserver.cc:211-220 | behind any string without NUL there is one 32-bit value x that every table size reduces, and one more byte makes it (33·x + that byte, signed) mod 2^32 |
| Fingerprint.SharedPrefixCollides | Server/rabinserver.cc:207-220 | blocks that agree up to their first NUL get the same number, whatever follows |
| Fingerprint.CollisionsForEverySize | Server/rabinserver.cc:207-220 | for every table size, all blocks that start with NUL have the number 5381 mod max_size, so numbering is never injective |
| Chunker.ChunksCharacterised | Server/rabinserver.cc:95-122 | a list of blocks is what the scan produces if and only if it concatenates to the file, every block has 1 to 64 bytes and ends at end of file, at a zero fingerprint or after exactly 64 bytes, and no zero fingerprint lies strictly inside a block |
| Chunker.NoScan | Server/rabinserver.cc:95-122 | a file of one or two bytes is one block, an empty one has none |
| Chunker.OneByteMore | Server/rabinserver.cc:102-115 | the blocks byte by byte: the third byte or a later one starts a new block exactly when the hash of the three bytes that end with it is a multiple of 32 or the last block has 64 bytes, and joins the last block otherwise |
| Chunker.LastByteAlone | Server/rabinserver.cc:102-106 | the last byte of a file is a block of its own exactly when its last window hashes to a multiple of 32 or the file without it ends in a block of 64 bytes |
| Chunker.SameCutsBelow | Server/rabinserver.cc:95-115 | files that share their first n bytes are cut at the same positions below n |
| Chunker.PrefixStability | Server/rabinserver.cc:95-115 | such files start with the same blocks, and these hold all but at most 64 of the n shared bytes |
| Chunker.AppendKeepsBlocks | Server/rabinserver.cc:95-122 | appending to a file keeps every block but its last |
| Chunker.Resynchronise | Server/rabinserver.cc:95-122 | files with a common suffix that has a zero window inside are both cut at that window and have identical blocks from there to the end, whatever came before |
| Wire.BigEndianRoundTrip | Server/rabinserver.cc:168-169 | every 32-bit number survives htonl and ntohl |
| Wire.BigEndianRoundTripBack | Client/rabinclient.cc:116-117 | every 4-byte field is the encoding of the number read from it |
| Wire.DescRoundTrip | Server/rabinserver.h:28-34 | 13-byte descriptors round-trip for all 32-bit numbers and sizes and both flags |
| Wire.DescLayout | Server/rabinserver.cc:165-172 | in a written descriptor the number is bytes 0-3 and the size bytes 4-7, most significant byte first, bytes 8-11 are zero and byte 12 is the flag |
| Wire.MessageLayout | Server/rabinserver.cc:165-185 | byte by byte: in a block or a reference the number is bytes 0-3, the size bytes 4-7, bytes 8-11 are zero and byte 12 is 0 for a block, 1 for a reference; only a block has its bytes behind; an end of file is 13 zero bytes |
| Wire.ParseLayout | Client/rabinclient.cc:103-146 | byte by byte what the client makes of any stream: size zero is an end of file, a non-zero flag a reference with exactly the number and size at their positions, and anything else a block of that many following bytes, once they are there |
| Wire.ParseEncode | Client/rabinclient.cc:103-148 | reading a message that was written, with anything behind it, gives that message and leaves exactly what is behind it; no data block or reference is taken for an end of file |
| Wire.PrefixIncomplete | Client/rabinclient.cc:103-148 | no strict prefix of a message can be read as a message |
| Wire.ParseAllEncodeAll | Client/rabinclient.cc:103-148 | a stream of messages, possibly cut inside the next one, parses back to exactly those messages |
| Wire.EncodeAllInjective | Server/rabinserver.cc:160-189 | two message sequences with the same bytes are equal |
| Wire.TruncatedStream | Client/rabinclient.cc:103-148 | a stream cut after n bytes yields exactly the messages that lie within those n bytes |
| Protocol.SendReplayExact | Server/rabinserver.cc:160-257 | two caches that never talk back: from any pair in agreement, for any hash and any items, with collisions and overwrites, no client look-up misses, the client gets exactly the items sent, and the caches agree again |
| Protocol.RefSizesMatch | Client/rabinclient.cc:197-207 | the k-th message, if a reference, finds its number in the client's cache, with a block of exactly the size it states |
| Protocol.LastWriter | Server/rabinserver.cc:225-257 | after any history the server holds under each number exactly the most recent block sent with that number, marked old, and nothing under a number never used |
| Protocol.RefIffMostRecent | Server/rabinserver.cc:164-186 | a block goes out as a reference if and only if the most recent earlier block with its number has the same bytes, and whole otherwise |
| Session.FileExact | Client/rabinclient.cc:71-158 | one file between agreeing caches, with any bytes behind it: the client writes exactly the file, returns the server's count, ends with the server's cache, and reads no byte past the end-of-file descriptor |
| Session.SessionExact | Server/rabinserver.cc:84-137 | for every hash and every list of files, the k-th `receive_file` writes exactly the bytes of the k-th `send_file` and returns the same count |
| Session.FileTruncated | Client/rabinclient.cc:103-151 | when the stream stops inside a file, the client has written exactly the blocks that arrived whole, holds the cache the server had after those blocks, and returns their number plus one |
| Chunker.FirstBlocksStandAlone | Server/rabinserver.cc:95-122 | the first k blocks of a file are exactly the blocks of the file they make up |
| Session.StopLooksLikeEnd | Client/rabinclient.cc:107-124 | a file that was cut off is indistinguishable, in output, count, cache and unread bytes, from the complete transmission of a real file, a prefix of the first: what `send_file` would write for the blocks that arrived |
| Session.UndamagedIff | Client/rabinclient.cc:103-124 | the output of a cut-off transmission equals the file if and only if at most the 13 bytes of the end-of-file descriptor are affected |
| Session.SessionTruncated | Client/rabinclient.cc:77-112 | when a connection stops anywhere inside a file, all earlier files are exact and the output for the interrupted one is a block-aligned prefix of it |
| Session.CountBounds | Server/rabinserver.cc:95-136 | the returned count is 1 exactly for the empty file, and for s ≥ 1 bytes lies between ceil(s/64)+1 and max(2, s) |
| Session.FileAccounting | Server/rabinserver.cc:126-189 | from any cache, literal bytes plus saved bytes equal the file size, and the wire carries 13 bytes per block and per end of file plus the literal bytes |
| Bounds.CachesBounded | Server/rabinserver.cc:40-257 | at every item boundary of every session both caches are equal, have only numbers below the hash's bound (`max_size` for djb2, Bounds.Djb2Below) and blocks of 1 to 64 bytes, hence at most `max_size` entries and 64·max_size bytes |
| Bounds.StoredOneMore | Server/rabinserver.h:88 | the byte count that is bounded is 0 for an empty cache, and grows by the length of a block stored under a new number |
| Economy.CachedGoesAsRef | Server/rabinserver.cc:237-250 | a block the server has cached goes out as a reference if no different block sent before it in this file has its number, whatever other collisions the file has |
| Economy.FreeIffCached | Server/rabinserver.cc:181-186 | a list of blocks costs no literal bytes if and only if all of them are cached beforehand |
| Economy.ResendFreeIff | Server/rabinserver.cc:237-250 | resending a file at once costs no literal bytes if and only if no two distinct blocks of it share a number |
| Economy.EditEconomy | Server/rabinserver.cc:95-115 | after p+x+s, sending p+y+s costs literal bytes only in the blocks the edit touches, which hold at most min(64, length of p) plus the length of y plus the offset of a zero window of s; the blocks the scan cuts off within p, and all blocks from that window on, are references; provided no two distinct blocks of the two files share a number |
| Async.NextRefines | Server/rabinserver.cc:109-111 | every step of the asynchronous system keeps the invariant (replaying the messages in flight never misses and agrees with every entry marked old; only the pending entry is not marked) and is a step of the protocol without caches or invisible to it |
| Async.RunSafe | Server/rabinserver.cc:160-257 | in every reachable state the invariant holds, and what was delivered, what is in flight and what is still to be sent make up the script |
| Async.NoMissAtHead | Client/rabinclient.cc:155-207 | in every reachable state, a reference about to be processed names a block the client has, of the stated size |
| AsyncBytes.ReadStops | Client/rabinclient.cc:103-148 | reading at most the bytes still wanted never takes a byte of the next message |
| AsyncBytes.NextRefines | Server/rabinserver.cc:172-185 | with descriptor and payload written separately and bytes read in any positive portions, every step is a step of the message-level system or invisible to it |
| AsyncBytes.RunSafe | Client/rabinclient.cc:94-158 | the invariant and the conservation of the script hold in every reachable byte-level state |
| AsyncBytes.RunsAreBounded | Client/rabinclient.cc:140-148 | every run is bounded by the work in the script: no interleaving or fragmentation goes on for ever |
| AsyncBytes.Progress | Client/rabinclient.cc:103-148 | a reachable state that is not finished has a next step |
| AsyncBytes.TwoWrites | Server/rabinserver.cc:172-185 | a block that goes out whole takes two steps, first its 13-byte descriptor, then its bytes |
| AsyncBytes.ServerRunsAhead | Server/rabinserver.cc:95-130 | from any state, wherever the server is within a block and whatever is unread, there is a run in which it transmits all that is left and the client does not move |
| AsyncBytes.WholeScriptOnWire | Server/rabinserver.cc:84-137 | every script has a run at whose end all its messages are on the wire and the client has read nothing |
| AsyncBytes.AnyReadIsAStep | Client/rabinclient.cc:103-146 | reading k of the bytes on the wire is a step if and only if k does not go past the descriptor while that is incomplete, or past the payload it announces afterwards |
| AsyncBytes.AnyMessageIsActedOn | Client/rabinclient.cc:114-157 | a message that has been read can be acted on whatever else has arrived, without a miss |
| AsyncBytes.MaximalRunDelivers | Server/rabinserver.cc:84-137 | a run that cannot be extended has delivered the whole script |
| AsyncBytes.DeliveredFiles | Client/rabinclient.cc:71-90 | in every reachable state the completed files are the first files sent and the open one is a prefix of the next |
| AsyncBytes.AllFilesArrive | Client/rabinclient.cc:71-90 | when a run cannot go on, every file has arrived, and nothing else |
| Stalls.ReadsUpToStall | Client/rabinclient.cc:94-158 | a call on the first bytes of a message stream acts on exactly the leading messages up to an end of file or, if it times out, on all whole ones, and then drops the fragment behind them; it drops one if and only if it times out inside a message |
| Stalls.KeepsItsPlaceIff | Client/rabinclient.cc:103-146 | a call leaves the client at a message boundary, having acted on everything before it, if and only if it does not time out inside a message |
| Stalls.ReaderKeepsUp | Client/rabinclient.cc:26-33 | whatever the order of arrivals, calls and time-outs, if none falls inside a message, the caches agree on the items read so far and the outputs of all calls concatenate to the contents of these items |
| Stalls.StalledSessionArrives | Client/rabinclient.cc:71-90 | once everything has been read, the outputs of such calls concatenate to the files in order, and the client's cache is the server's |
| Stalls.StallInsideLosesFile | Client/rabinclient.cc:107-109 | for every hash, a one-byte file is lost, and never cached, when the client times out after the first byte of its descriptor: the next call reads the rest one byte late |
| Framing.ForwardExact | Integration/hrd.cc:136-152 | one response, between agreeing caches: the reader forwards exactly the pieces the relay received, stops at the closing empty file, and leaves the next response unread |
| Framing.FramingExact | Integration/psb.cc:122-132 | for every list of responses and every split of each into non-empty pieces, the reader forwards the same responses with the same boundaries |
| Framing.ArrivedShape | Integration/hrd.cc:136-152 | what arrives of a cut-off response is some whole pieces and then possibly a block-aligned prefix of the next |
| Framing.CutResponseLooksComplete | Integration/hrd.cc:136-152 | the reader forwards exactly what arrived of a cut-off response, and cannot tell it from the complete response made of those pieces: same output, cache and unread bytes |
| Framing.ResponseUndamagedIff | Integration/hrd.cc:136-152 | a cut-off response is forwarded undamaged if and only if at most its last 26 bytes, the two closing descriptors, are affected |
| Responses.ResponsesOfAll | Integration/psb.cc:122-132 | the files sent for any list of responses, cut at the empty ones, are that list again |
| AsyncResponses.DeliveredResponses | Integration/hrd.cc:136-152 | in every reachable byte-level state the finished responses are the first ones sent, and of the next one the reader has some whole pieces and a prefix of another |
| AsyncResponses.AllResponsesArrive | Integration/hrd.cc:136-152 | when a run of the byte-level system cannot go on, exactly the responses sent have arrived, each with its own pieces |
| Server.RabinServer.constructor | Server/rabinserver.cc:25-43 | a new server has an empty cache, and its hash is djb2 with its table size |
| Server.RabinServer.RabinFunc | Server/rabinserver.cc:145-157 | the fingerprint is the hash of the three bytes, in this order, modulo 32 |
| Server.RabinServer.InsertBlock | Server/rabinserver.cc:225-257 | returns the block's hash; the heap cache changes as `Inserted` says: a block already cached keeps its object, any other gets a new one |
| Server.RabinServer.WriteBlockToClient | Server/rabinserver.cc:160-189 | appends exactly the encoded message, whose bytes are fixed position by position, marks the block old in place, returns the byte count of the last write, and reports an absent number without changing anything |
| Server.RabinServer.TransmitBlock | Server/rabinserver.cc:109-120 | the two calls made per block keep cache and wire determined by the history extended by that block |
| Server.RabinServer.WriteEnd | Server/rabinserver.cc:126-130 | appends 13 zero bytes and extends the history by an end of file |
| Server.RabinServer.SendFile | Server/rabinserver.cc:84-137 | the scan transmits exactly the blocks of the file and an end of file, after everything sent before, and returns their number |
| Client.Socket.Read | Client/rabinclient.cc:105 | `read` delivers any positive number of the available bytes, in order, into the buffer |
| Client.RabinClient.Fill | Client/rabinclient.cc:103-148 | the read loops fill their buffer with exactly the next bytes however the network splits them, or consume everything and report that the stream stopped |
| Client.RabinClient.InsertBlock | Client/rabinclient.cc:175-195 | a new block with that number, marked old, replaces whatever was cached under the number |
| Client.RabinClient.GetBlock | Client/rabinclient.cc:197-210 | a fresh copy of the cached block, with its number, bytes and flag, or an exception for an absent number |
| Client.RabinClient.ReceiveBlock | Client/rabinclient.cc:94-158 | result, cache and unread bytes depend only on the bytes that arrive, not on how they are split; the block returned is a copy with the number its descriptor stated, marked old; every cached block keeps its own number and the mark |
| Client.RabinClient.ReceiveFile | Client/rabinclient.cc:71-90 | likewise for a whole file: output, count, cache and unread bytes are those of `RecvFile`, which the session theorems are about |
| Relay.RelayRound | Integration/psb.cc:122-130 | one round takes some bytes of the response, at most 1000, and sends them as one file; it sends nothing only when the response is at its end |
| Relay.RelayResponse | Integration/psb.cc:122-132 | the whole response is taken and sent as one file per piece received, each of at most 1000 bytes, the pieces making up the response, and then an empty file |
| Relay.ForwardRound | Integration/hrd.cc:137-151 | one round receives one file and hands it to the browser unless its count is 1 |
| Relay.ForwardResponse | Integration/hrd.cc:136-152 | the browser gets, in order, the files received up to the first with a count of 1 |
| Relay.Serve | Integration/psb.cc:80-137 | both relays, both classes and the wire together, in any interleaving of the rounds of the two loops, so that hrd forwards a response while psb is still relaying it and psb runs ahead: every download equals the response that came in |

## Left out

- Client.Socket.Read: a failed or timed-out read is the end of the stream for the class; calls that go on after a time-out are treated on values, call by call, in `Stalls.dfy`, and only for the library: `hrd` takes the count of 1 that a time-out at the start of a file gives for the end of the response (Integration/hrd.cc:152).
- Client.RabinClient.ReceiveFile: an end of file and a stream that stopped give the same result, as in the source (Session.StopLooksLikeEnd); after a stop `hrd` therefore ends the response as if it were complete (Framing.CutResponseLooksComplete), although Integration/hrd.cc:152 reads a count of 1 as the end.
- Relay.ForwardResponse: `send` to the browser is taken to deliver all bytes (Integration/hrd.cc:150), and the `FILE*` that hrd opens for every file and never closes (Integration/hrd.cc:138) is an object without a limit on how many there are.
- Server.RabinServer.SendFile: the count is unbounded where the source has an `int`; by Session.CountBounds it cannot overflow for files below 2^31 bytes.
- Server.RabinServer.WriteBlockToClient: failed or partial writes, and reconnecting with a warm server cache.
- Relay.Serve: a turn is one round of either loop; every interleaving down to single reads and writes is covered by AsyncBytes and AsyncResponses, on values.
- Wire.DescRoundTrip: a flag byte other than 0 or 1 is read as set; for the source it is undefined, and the server never writes one.
- Sockets, connect, accept, close, setting the time-out, logging and `error()` exits: I/O without a property here.
- Memory management: blocks are garbage-collected objects, their bytes immutable values.
- `RabinServer::get_block` is never called; `add_blocks` and the client's `hash_function` have no definition.
- The request-forwarding parts of `psb.cc` and `hrd.cc`, the two `main.cc` files, `normalproxy.c`, the Boost.Asio proxies and their copies of the library, and the sample payloads under Files/.
