# Socket++ in Dafny

A model of the protocol code of Socket++ and proofs about it: the simple_socket wire format and its
strict reads, file transfer, the buffered line protocol, the server's client pool, the tunnel, and
host:port strings.

What the C++ code updates in place is a class here, and its functions are methods proved against
specification functions:

- `Bytes`, `BaseIo`: byte order, a connection, the four strict-read loops.
- `Wire`, `WireLaws`, `WireCanonical`, `Portability`, `Builds`, `Session`: the wire format as an
  encoder and a decoder that share nothing, and its laws. `WireGrammar` is the format once more, as a
  grammar that the decoder is proved to accept exactly. `SimpleSocket` holds the imperative `o_*` and
  `i_*`.
- `FileTransfer`, `FileReceive`, `FileLaws`: `o_file`, `i_file`, which frames are taken, and when a
  file gets through.
- `TextSocket`, `TextLaws`: `i_line`, `o_line`, `o_txt`.
- `Pool`, `Fairness`: the waits over the retained clients and the guarantee of the fair one.
  `PoolTrace`, `PoolRounds`, `PoolLoop`: the rules of the activity loop's runs, what they entail, and
  the loop.
- `Tunnel`, `Inet`.

System calls are arbitrary within their contracts. A read returns 1 to the requested number of
bytes, chosen by a `schedule` nothing is known about, and 0 at the end of the stream; file writes,
sends, the answers of select, the callbacks of the pool and MD5 are arbitrary functions in the same
way. A pointer moved over a buffer is an offset. An exception is an error result; the bytes consumed
before it are part of the contracts.

## Where the code misses its promise

The code is modelled as it is written. Each promise it breaks has an exact condition:

- A strict read of `base_fd`, and of `base_socket` without MSG_WAITALL, asks for the full length
  again after a short read (socket++/base_io.cpp:92, socket++/base_io.cpp:257): `FdStrictExactly`,
  `SocketStrictExactly`. Pipes and MSG_WAITALL sockets read correctly, and the decoders stand on that.
- "Integers without caring of endianness": only the sender swaps, so big-endian receivers decode
  wrongly: `IntegerTransfer`, `BigEndianExactly`.
- Map entries are read as two arguments of one call (socket++/io/simple_socket.hpp:210). A compiler
  that evaluates the value first cannot read maps: `ValueFirstLosesMaps`. Little-endian, key-first
  builds are exactly the faithful ones: `FaithfulExactly`.
- A partial file write is never completed (socket++/io/simple_socket.cpp:102-112): `StoredExactly` for
  a chunk, `FileTransferExactly` for files. The retry skips as many bytes as the first write took:
  `WriteChunk`.
- The receiver starts writing at offset 0 and never truncates (socket++/io/simple_socket.cpp:81), so a
  longer destination keeps its old tail behind the content: `IdenticalExactly`.
- `atoi` is undefined from 2^31 on (socket++/base_inet.cpp:49), so a port is checked only below that:
  `HostAndPort`.
- `o_txt` drops an unterminated tail against its header (socket++/io/text_buffered.hpp:69):
  `TailExactly`.
- `wait_client_activity` and its fair version lock the mutex and then again in their callee
  (socket++/handler/socket_server.hpp:248-250, socket++/handler/socket_server.hpp:302); with the
  default mutex, the only one there is (socket++/handler/socket_server.hpp:175), they never return.
  `Deadlock` is that outcome: `WaitActivity`, `WaitActivityFair`. No build has a recursive mutex; it
  stands for the single critical section that is meant, and `BoundedBypass` is about its waits.
- The plain wait can hand out the same client for ever: `PlainWaitStarves`.

## Model

| member | source | states |
|---|---|---|
| Bytes.SwapBytes | socket++/io/simple_socket.cpp:13-21 | the in-place swap leaves the reversal of the old contents |
| Bytes.ReverseTwice | socket++/io/simple_socket.cpp:13-21 | swapping twice is the identity |
| Bytes.LeAt | socket++/io/simple_socket.hpp:95 | byte k of the wire form of a number is its digit of weight 256^k |
| Bytes.LeTruncates | socket++/io/simple_socket.hpp:95 | writing w bytes of an integer and reading them back keeps it modulo 256^w |
| BaseIo.Stream.IfixPipe | socket++/base_io.cpp:142-153 | with an infinite timeout, under every read schedule: exactly the next len bytes, nothing past the target, nothing consumed beyond them; an exception exactly when fewer will come |
| BaseIo.Stream.IfixWaitAll | socket++/base_io.cpp:265-269 | the same contract from one recv under MSG_WAITALL |
| BaseIo.Stream.IfixLiteral | socket++/base_io.cpp:83-98 | the literal loop behaves as FixLiteral on the kernel's schedule, and writes past the target only when it reports so |
| BaseIo.LiteralExactly | socket++/base_io.cpp:83-98 | under every schedule the literal loop ends at the first read that is too small, runs past the target or fills it: an exception, an overrun, or exactly the next len bytes |
| BaseIo.KernelCovers | socket++/base_io.cpp:86 | a schedule may let a read return any number from 1 to what it asks for and is there |
| BaseIo.FdStrictExactly | socket++/base_io.cpp:83-98 | base_fd's loop is a strict read under every schedule if and only if one byte is asked for or the stream is too short |
| BaseIo.SocketStrictExactly | socket++/base_io.cpp:248-263 | base_socket's loop is a strict read under every schedule if and only if one byte is asked for, or at least one and nothing is queued behind the message |
| WireLaws.LessTotal | socket++/io/simple_socket.hpp:180-182 | the key order of std::map is total |
| WireLaws.LessExactly | socket++/io/simple_socket.hpp:180-182 | and it is the lexicographic one: some first bytes agree, and then the smaller key ends or has the smaller byte |
| WireLaws.InsertAtEnd | socket++/io/simple_socket.hpp:206-212 | inserting entries in key order appends them, so a map is rebuilt from its own iteration |
| WireLaws.DecStrRoundTrip | socket++/io/simple_socket.hpp:124-159 | strings of every length round trip, across the 254/255 switch to the long form |
| WireLaws.RoundTrip | socket++/io/simple_socket.hpp:162-214 | on a little-endian receiver, for every tree (key-first builds) or every tree without map entries (value-first builds) and all trailing bytes: i_var undoes o_var and leaves exactly the trailing bytes |
| WireLaws.DecVarExtends | socket++/io/simple_socket.hpp:189-214 | a decoder that has decided gives the same answer on every longer stream |
| WireLaws.TruncationIsReadError | socket++/io/simple_socket.hpp:189-214 | every strict prefix of an encoding ends in a read error, never in a value |
| WireLaws.PrefixFree | socket++/io/simple_socket.hpp:162-188 | an encoding is a prefix of another if and only if the values are equal |
| WireCanonical.InsertKeepsOrder | socket++/io/simple_socket.hpp:209-210 | insertion keeps the map ordered and adds nothing but the entry |
| WireCanonical.InsertSize | socket++/io/simple_socket.hpp:209-210 | an insertion lengthens the encoding by at most the entry's own bytes |
| WireCanonical.FirstInsertWins | socket++/io/simple_socket.hpp:209-210 | a repeated key keeps its first value and every entry survives an insertion |
| WireCanonical.Canonical | socket++/io/simple_socket.hpp:138-159 | re-encoding any accepted value takes no more bytes than were consumed and decodes to the same value, whatever the receiving build |
| WireGrammar.DecodesExactly | socket++/io/simple_socket.hpp:189-214 | for every build of the receiver and every stream: i_var returns a value and leaves the rest if and only if a form of that value in the grammar stands in front of the rest; long-form short strings, repeated keys and keys in any order included |
| WireGrammar.CollectsExactly | socket++/io/simple_socket.hpp:209-210 | counted insertions give the map with ascending keys that holds exactly the first entry for each key |
| WireGrammar.SenderBytes | socket++/io/simple_socket.hpp:162-188 | the bytes o_var sends for each kind of value |
| WireGrammar.ItemsInOrder | socket++/io/simple_socket.hpp:176-177 | each item of a list between those before it and those behind it |
| WireGrammar.EntriesInOrder | socket++/io/simple_socket.hpp:182-185 | likewise for map entries, key before value |
| Portability.IntegerTransfer | socket++/io/simple_socket.hpp:82-95 | for every width: the number on a little-endian receiver, its byte reversal on a big-endian one, equal exactly for palindromes |
| Portability.BigEndianExactly | socket++/io/simple_socket.hpp:189-214 | for streams under 4 GiB: a big-endian receiver decodes a tree correctly if and only if it has no multi-byte field whose order shows |
| Portability.OrderNeutralArrives | socket++/io/simple_socket.hpp:189-214 | the "if" half for streams of every size: order-neutral trees arrive |
| Portability.HugeListArrives | socket++/io/simple_socket.hpp:200-205 | why the other half needs a bound: a list of 2^32 + 2^24 voids is not order-neutral and arrives all the same |
| Builds.ValueFirstLosesMaps | socket++/io/simple_socket.hpp:210 | a one-entry map cannot be read when the value is evaluated first |
| Builds.LuckyMapArrives | socket++/io/simple_socket.hpp:206-212 | the map {"": "", NUL: void} survives a value-first build |
| Builds.LuckyEntriesSwap | socket++/io/simple_socket.hpp:206-212 | although each of its entries alone is read as the other one: what survives is not decided entry by entry |
| Builds.FaithfulExactly | socket++/io/simple_socket.hpp:189-214 | every tree round trips if and only if the receiver is little-endian and evaluates the key first |
| SimpleSocket.Socket.OInt | socket++/io/simple_socket.hpp:95 | from either byte order the wire gets little-endian bytes |
| SimpleSocket.Socket.OBool | socket++/io/simple_socket.hpp:93 | writes the byte 1 for true and 0 for false |
| SimpleSocket.Socket.OStr | socket++/io/simple_socket.hpp:124-136 | writes the length-escaped form and nothing else |
| SimpleSocket.Socket.OBin | socket++/io/simple_socket.hpp:100 | writes a 32-bit length and the data; NULL is length 0 |
| SimpleSocket.Socket.OVar | socket++/io/simple_socket.hpp:162-188 | the recursive sender appends exactly the encoding |
| SimpleSocket.Socket.OItems | socket++/io/simple_socket.hpp:176-177 | the list loop appends the items in order |
| SimpleSocket.Socket.OEntries | socket++/io/simple_socket.hpp:182-185 | the map loop appends the entries in key order, key before value |
| SimpleSocket.Socket.IInt | socket++/io/simple_socket.hpp:82 | reinterprets the next w bytes in host order, whatever the read sizes |
| SimpleSocket.Socket.IBool | socket++/io/simple_socket.hpp:80 | true for the byte 1, false for 0 |
| SimpleSocket.Socket.IStr | socket++/io/simple_socket.hpp:137-159 | result, exception and stream position are those of the string decoder |
| SimpleSocket.Socket.IBin | socket++/io/simple_socket.hpp:87-88 | likewise for blobs |
| SimpleSocket.Socket.IEntry | socket++/io/simple_socket.hpp:210 | likewise for a map entry in either argument order |
| SimpleSocket.Socket.IVar | socket++/io/simple_socket.hpp:189-214 | under every chunking the recursive receiver returns, throws and consumes exactly as the decoder does; the keys of a map ascend |
| SimpleSocket.Socket.IList | socket++/io/simple_socket.hpp:200-205 | count and items: result, exception and position are those of the decoder |
| SimpleSocket.Socket.IItems | socket++/io/simple_socket.hpp:203-204 | the vector filled in place holds the decoded items |
| SimpleSocket.Socket.IMap | socket++/io/simple_socket.hpp:206-212 | count and entries: likewise; the keys ascend |
| SimpleSocket.Socket.IEntries | socket++/io/simple_socket.hpp:209-210 | the counted insertions build the decoded map, its keys in ascending order |
| Session.MessageRoundTrip | socket++/io/simple_socket.hpp:79-102 | each typed send is undone by the matching receive |
| Session.SessionRoundTrip | socket++/io/simple_socket.hpp:42-60 | for every list of typed sends the matching receives return the same values in order and consume exactly all bytes |
| FileTransfer.BinExactly | socket++/io/simple_socket.hpp:87-100 | a blob arrives if and only if it is NULL or has 1 to 2^32 - 1 bytes |
| FileTransfer.ChunksTile | socket++/io/simple_socket.cpp:132-155 | the chunks start where the rest of the file does, abut, are never empty nor larger than the chunk size and end at the size |
| FileTransfer.ChunkCount | socket++/io/simple_socket.cpp:132-155 | they are as many as the rounded-up quotient |
| FileTransfer.ChunkOffset | socket++/io/simple_socket.cpp:132-155 | every chunk starts at a multiple of the chunk size |
| FileTransfer.WriteFromFile | socket++/io/simple_socket.cpp:126-166 | the mmap loop sends exactly the file, in exactly those chunks, with the checksum of the whole and progress at every chunk's end |
| FileTransfer.OFile | socket++/io/simple_socket.hpp:241-246 | appends size, content and checksum frame |
| FileTransfer.FileRoundTrip | socket++/io/simple_socket.hpp:217-246 | the frame decodes to the file, size 0 included, whichever side computes checksums, and the stream is left behind it |
| FileTransfer.AlteredContentIsRefused | socket++/io/simple_socket.cpp:169-188 | with checksums on both sides other content under the sent checksum is a mismatch unless MD5 collides |
| FileReceive.StoredExactly | socket++/io/simple_socket.cpp:97-112 | a chunk is stored if and only if the first write takes it whole; taken by more than half, the next write runs past the buffer, else the chunk ends in an exception, whatever the later writes do |
| FileReceive.OverwriteAt | socket++/io/simple_socket.cpp:97 | what a write leaves in the file, byte by byte |
| FileReceive.WriteChunk | socket++/io/simple_socket.cpp:97-112 | the literal write loop ends as ChunkEnd says, and what is then in the file: the whole chunk; or the part the first write took and, leaving out as many bytes, what the later ones took |
| FileReceive.ReceiveAll | socket++/io/simple_socket.cpp:82-111 | the receive loop ends as Reception says of the two schedules; when all is stored the file and the checksum context hold exactly the bytes received |
| FileReceive.ReadToFile | socket++/io/simple_socket.cpp:68-123 | under every receive and write schedule, how the reception ends; when all is stored, the content is in the file and the streamed checksum is its own |
| FileReceive.IFile | socket++/io/simple_socket.hpp:217-224 | result or exception is FileResult of the stream and both schedules; on a normal return the content lies over the start of the file and the stream is behind the frame |
| FileReceive.IdenticalExactly | socket++/io/simple_socket.cpp:81 | the stored file is identical to the content if and only if it was no longer before |
| FileLaws.FrameDecides | socket++/io/simple_socket.cpp:169-188 | what i_file says to any size, content and checksum blob: accepted unless both sides have checksums and it is not the 16 bytes of the MD5 of the content, with the exception for each case |
| FileLaws.NoFrameFails | socket++/io/simple_socket.hpp:217-224 | every stream that does not begin with such a frame ends in a read error |
| FileLaws.FrameBytes | socket++/io/simple_socket.hpp:241-246 | the bytes o_file sends: size, content, and the length 16 and MD5 or the length 0 |
| FileLaws.StreamDecides | socket++/io/simple_socket.hpp:217-224 | on a file system that takes every write whole, i_file ends on every stream as the stream alone says |
| FileLaws.FirstWriteDecides | socket++/io/simple_socket.cpp:97-112 | how i_file ends when the first write is not taken whole |
| FileLaws.FileTransferExactly | socket++/io/simple_socket.hpp:217-246 | for a given write schedule: every file of under 2^64 bytes sent by o_file is stored by i_file, which returns its size, under every receive schedule, if and only if the file system takes every write whole |
| FileLaws.TransferIntoFile | socket++/io/simple_socket.hpp:217-246 | then the frame decodes to the content, and the stored file is identical to it if and only if it was no longer before |
| TextSocket.Socket.SearchBuffer | socket++/io/text_buffered.cpp:9-20 | the nested loops find the leftmost occurrence of the separator |
| TextSocket.Socket.ILine | socket++/io/text_buffered.cpp:6-29 | whatever the read sizes, a call cuts the leftmost line off buffer plus stream, or throws with everything kept in the buffer |
| TextSocket.Socket.OLine | socket++/io/text_buffered.hpp:67 | writes the line and the separator |
| TextSocket.Socket.OTxt | socket++/io/text_buffered.cpp:31-49 | the literal scan writes every '\n'-ended line with the separator and nothing else |
| TextLaws.LineExactly | socket++/io/text_buffered.hpp:59-67 | o_line then i_line gives the line and leaves the rest if and only if the first separator in line + separator is the printed one |
| TextLaws.RunIsSplit | socket++/io/text_buffered.cpp:6-29 | over every run of calls the returned lines are the leftmost-first split of the whole stream, and with what is left they make it up again |
| TextLaws.CarryOver | socket++/io/text_buffered.cpp:15-27 | at every return, old buffer and bytes read are line, separator and new buffer |
| TextLaws.SeparatorExactly | socket++/io/text_buffered.cpp:9-20 | the lines that survive are the separator-free ones if and only if no proper prefix of the separator is also its suffix |
| TextLaws.CrLfIsBorderFree | socket++/io/text_buffered.hpp:46 | the default separator is such a one |
| TextLaws.ReadJoined | socket++/io/text_buffered.cpp:6-29 | reading n printed lines gives those lines and the rest if and only if each is safe |
| TextLaws.TextTransport | socket++/io/text_buffered.cpp:6-49 | write_txt and as many read_line give exactly the lines of the text and an empty buffer if and only if each is safe |
| TextLaws.LinesAndTail | socket++/io/text_buffered.cpp:34-44 | the lines and the tail make up the text, and there is no '\n' but between them |
| TextLaws.TailExactly | socket++/io/text_buffered.hpp:69-70 | o_txt does what its header promises, and the lines rebuild the text, if and only if the text is empty or ends in '\n' |
| TextLaws.TailIsLost | socket++/io/text_buffered.cpp:45-48 | the text "a": nothing is written, a line is promised |
| Pool.Server.ClientsFillFdset | socket++/handler/socket_server.hpp:288-298 | the set holds a descriptor if and only if some retained client has it, with the largest of them |
| Pool.Server.SelectBelow | socket++/handler/socket_server.cpp:97-109 | passing the maximum plus one, select reports exactly the ready members |
| Pool.Server.SelectThrowStop | socket++/handler/socket_server.cpp:70-93 | the first active monitored descriptor stops the wait, before any activity on the listener |
| Pool.Server.WaitClientActivity | socket++/handler/socket_server.hpp:300-308 | a client is returned if and only if some retained one is ready, and it is the first such; the scan cannot fall off its end |
| Pool.Server.WaitActivity | socket++/handler/socket_server.hpp:248 | bad state exactly when not listening; when listening, deadlock exactly with the default mutex; else a client if and only if some retained one is ready, and it is the first such |
| Pool.Server.WaitActivityFair | socket++/handler/socket_server.hpp:250 | the same, and the list becomes the others in their order with the served client behind them |
| Fairness.FairPermutes | socket++/handler/socket_server.hpp:249-250 | the fair wait moves the first ready client to the end, keeps the order of all others, and leaves the list alone when no one is ready |
| Fairness.BoundedBypass | socket++/handler/socket_server.hpp:249-250 | over every run of retains, releases of others and fair waits, timeouts included: a client that is ready in each wait is overtaken by pairwise distinct clients, all ahead of it at the start, so position + 1 waits reach it |
| Fairness.HandedCount | socket++/handler/socket_server.hpp:250 | every fair wait of a run that finds a ready client on the list hands out one |
| Fairness.PlainWaitStarves | socket++/handler/socket_server.hpp:247-248 | over every series of plain waits a first client that stays ready gets all of them |
| PoolLoop.Loop.Watch | socket++/handler/socket_server.hpp:316-325 | a descriptor is scanned if and only if a retained client has it, or it is the listening one, or a monitored one |
| PoolLoop.Loop.WaitActivityLoop | socket++/handler/socket_server.hpp:310-354 | every run follows the automaton Next; its log holds every answer of select and every callback with its answer, in order; the server is left with the list the log shows last; it returns normally if and only if the last event is a QUIT, times out only when no descriptor of a retained client, the listener or a monitor of its latest scan is ready, and otherwise goes on for as long as it is observed |
| PoolLoop.AnswersAreExact | socket++/handler/socket_server.hpp:326-328 | every answer of select in a run holds exactly the descriptors to watch at the latest scan that are ready at that select |
| PoolLoop.RepliesInOrder | socket++/handler/socket_server.hpp:332-346 | every callback of a run is answered by the reply whose turn it is |
| PoolTrace.StateIsHistory | socket++/handler/socket_server.hpp:314-353 | the automaton's list, snapshot and ready set are those the log shows last |
| PoolTrace.CalledWasReady | socket++/handler/socket_server.hpp:327-348 | every callback is for a descriptor in the latest answer of select, itself within the latest scan |
| PoolTrace.ScanIsExact | socket++/handler/socket_server.hpp:315-325 | every scan of a run holds a descriptor if and only if a client retained at that moment has it, or it is the listening one, or a monitored one; none is above the maximum |
| PoolTrace.VerdictIsObeyed | socket++/handler/socket_server.hpp:333-351 | nothing follows a QUIT; a scan follows a RESCAN and only a RESCAN |
| PoolTrace.RoundIsOrdered | socket++/handler/socket_server.hpp:330-348 | consecutive callbacks keep the order monitors, listener, retained list as the callbacks leave it |
| PoolTrace.RoundIsComplete | socket++/handler/socket_server.hpp:326-353 | a round whose callbacks answer CONTINUE and leave the list alone calls exactly the ready ones, once each, in order |
| PoolRounds.ReadyCallsExactly | socket++/handler/socket_server.hpp:329-348 | those calls are every ready monitor, a ready listener and every ready client, no one else, each once, in this order |
| PoolRounds.RoundIsPrefix | socket++/handler/socket_server.hpp:326-353 | however far a round has got, and whatever the last callback answered or did to the list, those called are the first of the ready ones, in order |
| PoolRounds.EditsKeepOrder | socket++/handler/socket_server.hpp:221-223 | any series of retains and releases keeps the order of those who stay and brings no list node back |
| PoolRounds.RoundServesStayers | socket++/handler/socket_server.hpp:343-348 | in a whole round of CONTINUEs whose callbacks keep the order of those who stay, as all retains and releases do, a client that stays on the list is called exactly once if it is ready and never if it is not |
| PoolRounds.RoundServesOthers | socket++/handler/socket_server.hpp:329-342 | whatever the callbacks of such a round do to the list, every monitor and the listener is called exactly once if it is ready and never if it is not |
| Tunnel.Tunnel.Intercept | socket++/io/tunnel.cpp:37-41 | the callback's data ends up in the buffer, which only grows |
| Tunnel.Tunnel.CopyChunk | socket++/io/tunnel.cpp:35-43 | one chunk of the size the kernel gives is read, passed through the callback if there is one, and handed to one write; what arrived is what that write took |
| Tunnel.Tunnel.CopyRound | socket++/io/tunnel.cpp:33-52 | every side that select reports is copied from once, side 1 first, until an io_error |
| Tunnel.Reports1 | socket++/io/tunnel.cpp:35 | the count of rounds that reported side 1 is the number of those rounds |
| Tunnel.Reports2 | socket++/io/tunnel.cpp:44 | likewise for side 2 |
| Tunnel.Tunnel.DoCopyTunneling | socket++/io/tunnel.cpp:10-58 | both directions conserve and order their bytes over every interleaving; each way there is a chunk for every round that reported the side, it arrived as read or as the callback made it, and at most one more did in part; it times out only when neither side is reported; at a closed connection nothing is missing but possibly one chunk whose own write took nothing |
| Inet.AtoiOfDecimal | socket++/base_inet.cpp:49 | atoi undoes the printing of every number below 2^31 and is undefined on the others |
| Inet.AtoiExactly | socket++/base_inet.cpp:49 | atoi skips blanks, takes a sign and the digits, and ignores the rest; undefined outside of int |
| Inet.BuildFromString | socket++/base_inet.cpp:42-69 | the backward scan and the checks give the address or the error of Parse |
| Inet.FindHost | socket++/base_inet.cpp:56-68 | empty, a dotted quad, a bad character, a name that is found or not: the outcome of each, with the given port |
| Inet.SplitAtLastColon | socket++/base_inet.cpp:46-55 | a string that ends in a digit splits at its last colon; the text behind it is the port, refused outside of 0 to 65535 |
| Inet.HostAndPort | socket++/base_inet.cpp:46-68 | any host, a colon and a number: a port from 65536 on is refused below 2^31 and undefined from there on; below, it is the port of the address, or the error, that the host gives |
| Inet.HostAlone | socket++/base_inet.cpp:46-68 | without a colon, or without a digit at its end, the whole string is the host, on the default port; the outcome for each kind of host |
| Inet.AddressRoundTrip | socket++/base_inet.cpp:42-82 | a printed IPv4 address parses back, with its port or with the default one |
| Inet.PrintedAddress | socket++/base_inet.cpp:79-82 | four decimal numbers with dots between them |

## Left out

- Portability.BigEndianExactly: for streams under 4 GiB, because beyond that its "only if" is false (HugeListArrives); its "if" has no such bound (OrderNeutralArrives).
- WireLaws.RoundTrip: value-first builds only for trees without map entries; a map can survive such a build although none of its entries would (LuckyMapArrives, LuckyEntriesSwap), so FaithfulExactly gives the condition per build.
- BaseIo.Stream.IfixPipe: the timeout of a pipe, which select reports before each read (socket++/base_io.cpp:145-146), is infinite here.
- BaseIo.Stream.Write: a send is taken whole or the connection is unusable; failed sends are modelled in the tunnel.
- FileReceive.WriteChunk: stops where the source's byte count wraps below zero and the write would run past the buffer.
- PoolRounds.RoundServesStayers: not for callbacks that splice the list by a fair wait of their own.
- PoolLoop.Loop.WaitActivityLoop: observes `budget` answers of select and callbacks, because a Dafny method ends; it holds for every budget, so for every finite part of a run. A callback that erases its own client must not answer CONTINUE (the iterator is gone, `Dangling`), and does not change the listening state.
- Tunnel.Tunnel.DoCopyTunneling: observes `budget` rounds, in the same sense; the callback is a function of direction, data and buffer size.
- Inet.BuildFromString: needs a non-empty string, because the source reads the last character; what atoi does outside of int is `Undefined`; network byte order of the port.
- The tag numbers of polyvar: xifutils is not part of this model, so tags are numbered in the order of the cases. An unknown tag and a bool byte other than 0 and 1 are undefined in the source and an error here.
- Separators of 256 characters, which the header allows and the 8-bit length of read_line does not.
- Errors of read, recv and select other than the end of the stream and a timeout; interrupted calls are simply repeated.
- Allocation failure for announced sizes; descriptors from FD_SETSIZE on.
- Receive progress reports, temporary files, sending of sockets, one-descriptor stoppable waits, accept itself, threads.
- OpenSSL streams, socket options, connect timeouts, reference counting, DNS.
