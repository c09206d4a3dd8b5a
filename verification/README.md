# A verified model of rabbitmq-c

rabbitmq-c is a client library for AMQP 0-9-1. This project models the parts of it that carry the
protocol, in Dafny 4.11, and proves what they are for: the wire codecs and their generator, the
incremental frame reader and the frame writer, the pool allocator and the release of buffers, the frame
queue with waiting, RPC matching and message reading, sending with deadlines and heartbeats, the merge of
capability tables, and the URL parser. `dafny verify dfyconfig.toml` checks
all of it.

## How the model is built

Each operation has a specification on values (byte strings, tables, lists of frames). Code that works in
place is a method or a class proved against that specification; what the library promises is proved
about the specification, for all inputs and over whole runs.

| module | part of the library |
|---|---|
| Wire | statuses, big-endian numbers, bounded buffer writes and reads |
| FieldTable, TableCodec | field tables: bytes, decoder and laws; the in-place encoder with back-patched lengths and the decoding loops |
| Fields, Generator, Properties | the code generator for methods and content properties, its emitted programs, flag words |
| Framing, FrameReader, FrameCodec | the frame reader as a step function and as an object with its buffers; the frame writer |
| Octets | the bytes of frames, tables and method arguments, written out in numbers |
| Pool, PoolTable, Release | the allocator, the table of pools per channel, when a pool may be recycled |
| FrameQueue, Connection, Rpc, Messages, Order | the linked frame queue, waiting, replies, message bodies, and where each frame of the wire ends up |
| Delivery | publishing, transmitting in any chunks, and reading back; a reply out of a transmitted stream |
| Deadlines, Sleeping, Timeline, Sender | points in time, calls of `poll`, what sending and waiting keep from one state to another, and the operations with deadlines and heartbeats |
| TimedRpc, HeartbeatRuns | a whole request and its reply, and two runs that show what a stalled heartbeat does |
| Merge, MergeSpec | cloning and merging tables between pools, and what the merge means |
| Url, UrlParser, UrlPrinter | the meaning of a URL, the in-place parser, and the printed forms, which are exactly those it accepts |

Conventions. Byte buffers are sequences or arrays of numbers below 256; widths, wrap-around and
truncating casts are written out. A method's and a class's field list come from a `Config`, so every
statement about frames holds for any protocol definition the generator may be run on. The socket, `poll`
and the clock are scripts of arbitrary content and length; a script that ends stands for the peer closing
or the socket failing. `Incoming` is what the unparsed bytes, buffered and still to come, stand for.

## Findings

Where the code does not do what one would expect, the model follows the code and a lemma says exactly
what happens.

- A connection's first frame, unless it is a protocol header, is rebuilt with byte 7 set to zero. A
  written frame, or a whole stream, arrives on a new connection if and only if its byte 7 is zero
  (`Framing.FirstFrameLosesByteSeven`, `FrameCodec.FirstFrameArrives`, `FrameCodec.NewConnectionRoundTrip`).
- A table key longer than 255 bytes is written with a truncated length; a table comes back from the
  decoder if and only if it has no such key (`FieldTable.TableRoundTrip`, `FieldTable.LongKeyIsLost`).
- Taking a frame of one channel from the queue drops the frames of other channels ahead of it
  (`FrameQueue.Queue.TakeOnChannel`; accounted for in `Order.PerChannelOrder`).
- The receive inside a blocked send waits for ever, so that send never reports a heartbeat timeout,
  contrary to the branch at librabbitmq/amqp_connection.c:550-551 (`Sender.TimedConnection.SendFrame`).
- A wait sends its heartbeats without a deadline of its own. If the socket is full, it polls until the
  receive deadline, past the caller's deadline (`HeartbeatRuns.DeadlineIsOutlasted`). Every poll of a wait
  respects all three deadlines if no heartbeat is set and the caller's deadline is less than 2^31
  milliseconds away, or if one is set and none falls due before the wait ends; the polls made for sending
  always respect the receive deadline (`Sender.TimedConnection.WaitFrame`).
- A chunk that arrives during such a stalled heartbeat is overwritten by the next one, for every
  heartbeat interval and whatever frames the two chunks hold (`HeartbeatRuns.FramesAreLost`). The bytes lost are exactly what the socket buffer
  held, whole frames or not (`Sender.TimedConnection.Refill`, `Sender.TimedConnection.ReceiveMore`);
  everything else is accounted for, and without a heartbeat interval nothing is ever lost
  (`Sender.TimedConnection.WaitFrame`).
- Without heartbeats, a deadline of 2^31 milliseconds or more wraps round (`Deadlines.FarDeadlineWraps`);
  a timeout of 2^64 nanoseconds or more may be taken for a short one (`Deadlines.LongTimeoutIsShort`).
- Merging two empty tables fails for lack of memory (`MergeSpec.MergeMeetsSpec`). With repeated keys in
  `add`, a table may be merged with an entry of `base` that does not exist: exactly when the first entry
  that does not pass is a table meeting a table where `base` has none (`MergeSpec.UndefinedExactly`).
  Where `base` has one, what an earlier table added is lost (`MergeSpec.FirstAdditionsAreLost`); what any
  merge returns is `MergeSpec.MergesFully`.
- The URL parser ignores the first of two ports behind a host, whatever it is, and takes a bracketed
  address for the whole host even if text beginning with `%00` precedes or follows it (`UrlPrinter.AcceptsExactly`).

## Model

| member | source | states |
|---|---|---|
| Wire.NumOfBe | librabbitmq/amqp_private.h:213-269 | a number that fits its width, written big-endian, denotes itself |
| Wire.BeOfNum | librabbitmq/amqp_private.h:217-285 | writing the number that bytes denote gives back the bytes |
| Wire.NetworkOrder | librabbitmq/amqp_private.h:213-269 | of the bytes of an 8-, 16- or 32-bit number the one with the highest bits comes first, in writing and in reading |
| Wire.UpperHalfFirst | librabbitmq/amqp_private.h:245-269 | and so for the halves of a 64-bit number |
| Wire.EncodeNum | librabbitmq/amqp_private.h:183-193 | succeeds exactly when the number fits the buffer, and then changes just those bytes |
| Wire.DecodeNumOf | librabbitmq/amqp_private.h:195-203 | reading behind a written number restores it and stops right behind it |
| Wire.EncodeBytes | librabbitmq/amqp_private.h:292-308 | copies the bytes in place exactly when they fit; the empty string always does |
| Wire.DecodeBytesOf | librabbitmq/amqp_private.h:310-320 | reads back a byte string and stops behind it |
| FieldTable.ScalarRoundTrip | librabbitmq/amqp_table.c:183-234 | every scalar of every kind, signed ones included, is restored from its payload bytes |
| FieldTable.ValueRoundTrip | librabbitmq/amqp_table.c:173-266 | a nested value decodes from its bytes, whatever follows them |
| FieldTable.ItemsRoundTrip | librabbitmq/amqp_table.c:27-91 | so do the items of an array, and the loop stops at the announced limit |
| FieldTable.EntriesRoundTrip | librabbitmq/amqp_table.c:93-171 | so do the entries of a table, in order |
| FieldTable.TableRoundTrip | librabbitmq/amqp_table.c:93-171 | a table with known kinds, below 2^32 bytes, comes back with any bytes behind it if and only if no key at any depth exceeds 255 bytes |
| FieldTable.LongKeyIsLost | librabbitmq/amqp_table.c:302-304 | a table whose only key has 256 bytes does not come back |
| FieldTable.ValueStable | librabbitmq/amqp_table.c:173-266 | whatever decodes has known kinds and short keys and re-encodes to as many bytes as were consumed |
| FieldTable.DecodeIsStable | librabbitmq/amqp_table.c:93-171 | decoding any byte string ends; on success at least the announced bytes were consumed, and the result re-encodes to exactly the consumed length and decodes to itself |
| TableCodec.TableFits | librabbitmq/amqp_table.c:295-328 | encoding succeeds if and only if all kinds are known and the bytes fit the room |
| TableCodec.EncodeValue | librabbitmq/amqp_table.c:330-420 | in place: the outcome, the new offset, exactly the value's bytes written, nothing below the offset touched |
| TableCodec.EncodeArray | librabbitmq/amqp_table.c:270-293 | the same for an array, its length field written after the contents |
| TableCodec.EncodeTable | librabbitmq/amqp_table.c:295-328 | the same for a table |
| TableCodec.BackPatch | librabbitmq/amqp_table.c:319-322 | filling in the length field leaves length, contents and the rest of the buffer as the byte layout demands |
| TableCodec.ReadValue | librabbitmq/amqp_table.c:173-266 | the recursive decoder agrees with the decoding function on every buffer and offset, errors included |
| TableCodec.ReadArray | librabbitmq/amqp_table.c:27-91 | its loop over items, bounded by the announced length but reading from the whole buffer, agrees too |
| TableCodec.ReadTable | librabbitmq/amqp_table.c:93-171 | and so does the loop over entries |
| TableCodec.EncodeThenDecode | librabbitmq/amqp_table.c:93-328 | running both on one buffer: success exactly when the table is encodable and fits, only the bytes between the offsets change, and the same table with the same end offset comes back exactly when keys are short |
| Octets.ShortScalars | librabbitmq/amqp_table.c:330-382 | kind byte and payload, in numbers, of every boolean, 8-bit and 16-bit value and of void |
| Octets.LongScalars | librabbitmq/amqp_table.c:353-401 | the same for 32-bit integers, floats and decimals |
| Octets.LongLongScalars | librabbitmq/amqp_table.c:363-411 | the same for 64-bit integers, doubles and timestamps |
| Octets.SizedValues | librabbitmq/amqp_table.c:270-420 | the same for strings, byte strings, arrays and tables, each with the four bytes of its length; and the length byte of a key |
| Octets.BooleanIsRead | librabbitmq/amqp_table.c:191-194 | a boolean is true for every byte but 0 |
| Fields.PutFits | librabbitmq/codegen.py:81-172 | the emitted statement for a field succeeds exactly when the value is encodable and its bytes fit |
| Fields.FieldRoundTrip | librabbitmq/codegen.py:81-172 | the emitted decoding statement restores the field and stops behind it |
| Octets.TextLimits | librabbitmq/codegen.py:81-172 | a short string is written exactly up to 255 bytes and a long one below 2^32, if it fits with its length field |
| Generator.BitEncoder.EncodeBit | librabbitmq/codegen.py:68-79 | the statements emitted for a bit, and how the bit counter moves |
| Generator.BitEncoder.Flush | librabbitmq/codegen.py:58-62 | pending bits are written out once |
| Generator.BitEncoder.Emit | librabbitmq/codegen.py:64-66 | any other statement flushes the pending bits first |
| Generator.BitDecoder.DecodeBit | librabbitmq/codegen.py:37-48 | the statements emitted for a bit: a new octet is read for every eighth |
| Generator.BitDecoder.Emit | librabbitmq/codegen.py:33-35 | any other statement ends the run of bits |
| Generator.GenerateEncoder | librabbitmq/codegen.py:285-296 | emits the encoding program of any field list |
| Generator.GenerateDecoder | librabbitmq/codegen.py:254-266 | emits the decoding program of any field list |
| Generator.EncoderWritesLayout | librabbitmq/codegen.py:285-296 | the emitted encoder writes exactly the layout of the fields, bits packed eight to an octet in order, and succeeds exactly when every field is encodable and all fit |
| Generator.DecoderReadsLayout | librabbitmq/codegen.py:254-266 | the emitted decoder restores all fields from the layout and consumes exactly it |
| Generator.GeneratedCodecsAreInverse | librabbitmq/codegen.py:254-296 | for every field list, decoding what was encoded, whatever follows, restores every field and consumes exactly what was written |
| Generator.QueueDeclareEncoder | librabbitmq/amqp_framing.c:1940-1961 | the program emitted for queue.declare is the generated C code, statement by statement |
| Generator.QueueDeclareDecoder | librabbitmq/amqp_framing.c:799-825 | the same for its decoder |
| Octets.BitsInOctet | librabbitmq/codegen.py:68-79 | the bits that share an octet are worth 1, 2, 4 up to 128, in order |
| Octets.QueueDeclareOctets | librabbitmq/amqp_framing.c:1940-1961 | the arguments of queue.declare byte by byte, its five bits worth 1 to 16 |
| Properties.AssignFlagBits | librabbitmq/codegen.py:659-667 | the first 15 fields get the bits 15 down to 1, and each further field a bit 16 above that of the field 15 before it; for 14 fields these are 15 down to 2 |
| Properties.FlagBitsAreUsable | librabbitmq/codegen.py:659-667 | for any number of fields the bits are distinct, none is a multiple of 16, and 30 fields fit 32 bits |
| Properties.EncodeFlags | librabbitmq/amqp_framing.c:2331-2345 | the loop writes the flag words, each with its continuation bit |
| Properties.ReadFlags | librabbitmq/amqp_framing.c:1415-1424 | the loop reads flag words until one has no continuation bit |
| Properties.FlagsRoundTrip | librabbitmq/amqp_framing.c:2331-2345 | the words written for any 32-bit flags are read back, consuming exactly them |
| Properties.ReceivedBits | librabbitmq/amqp_framing.c:1415-1424 | the flags received are the flags sent without bits 0 and 16, plus bit 0 exactly when a second word was written |
| Properties.PresenceOnTheWire | librabbitmq/amqp_framing.c:2331-2345 | for any flags, the presence of a field is one bit of the first bytes, counted from the top: fields 0 to 14 in the first two bytes, 15 to 29 in the next two, if there are any |
| Properties.OnlyFirstField | librabbitmq/amqp_framing.c:2331-2345 | the flags in which only the first of 30 fields is set are written as 0x80, 0x00 |
| Properties.PropertiesRoundTrip | librabbitmq/codegen.py:268-311 | for any class of at most 30 fields, decoding encoded properties restores exactly the present fields and consumes exactly what was written |
| Framing.FeedByteValid | librabbitmq/amqp_connection.c:205-381 | between calls, unless an error was returned, offset < target, the target being 8 or 7 bytes before the header is complete, and afterwards header, payload and end marker within frame_max; that it also fits the buffer in use is part of `FrameReader.InboundReader.HandleInput` |
| Framing.HandleInputIsRunBytes | librabbitmq/amqp_connection.c:205-381 | one call on a chunk equals the machine fed byte by byte: same frame, error, reader and count |
| Framing.RunBytesProgress | librabbitmq/amqp_connection.c:205-381 | a call on non-empty data consumes at least one byte, at most all, and all of them if no frame completed |
| Framing.ConsumeIsFeed | librabbitmq/amqp_socket.c:633-650 | draining a buffer call by call equals feeding it byte by byte |
| Framing.ChunkIndependence | librabbitmq/amqp_connection.c:180-381 | from every valid reader, a stream split in any way gives the same frames, first error and final reader as the whole stream |
| Framing.FirstFrameLosesByteSeven | librabbitmq/amqp_connection.c:233-298 | on a new connection any stream that does not start with a protocol header is read as an idle reader reads it with byte 7 zeroed |
| FrameReader.InboundReader.constructor | librabbitmq/amqp_connection.c:44-86 | a new reader wants 8 bytes |
| FrameReader.InboundReader.ReturnToIdle | librabbitmq/amqp_connection.c:180-186 | the reader is the idle one and uses the header buffer again |
| FrameReader.InboundReader.ConsumeData | librabbitmq/amqp_connection.c:188-203 | as many bytes as are available and wanted are appended to the frame |
| FrameReader.InboundReader.OpenFrame | librabbitmq/amqp_connection.c:233-290 | protocol header, size checks, and the header moved to a page of its own |
| FrameReader.InboundReader.Finish | librabbitmq/amqp_connection.c:302-371 | end marker checked, frame decoded, reader idle again |
| FrameReader.InboundReader.HandleInput | librabbitmq/amqp_connection.c:205-381 | the object with its buffers does what the step function says, whatever a recycled page contains, and unless it fails leaves offset < target <= buffer size |
| FrameCodec.FrameToBytes | librabbitmq/amqp_connection.c:432-506 | the buffer holds type, channel, size, the payload the encoders yield and the end marker, the size written after the payload; or the encoder's error |
| Octets.FrameOctets | librabbitmq/amqp_connection.c:432-506 | every written frame byte by byte: type 1, 2, 3 or 8, channel, size, payload, 206 |
| Octets.MethodOctets | librabbitmq/amqp_connection.c:442-460 | a method payload begins with the four bytes of its class and method number |
| Octets.HeaderOctets | librabbitmq/amqp_connection.c:462-484 | a header payload begins with class, a weight of 0 and the eight bytes of the body size |
| Octets.FrameIsRead | librabbitmq/amqp_connection.c:246-371 | what an idle reader makes of any bytes that start with a whole frame: refused for a size of 2^31 - 1 or more, a size beyond frame_max or a last byte other than 206; otherwise type 3 is a body, 8 a heartbeat, any type but 1, 2, 3 and 8 is skipped, and reading goes on behind the frame |
| Octets.ProtocolHeaderIsRead | librabbitmq/amqp_connection.c:233-249 | a new connection takes the bytes of AMQP and four more as the protocol header |
| FrameCodec.PayloadFits | librabbitmq/amqp_connection.c:432-506 | what the encoders write leaves room for header and end marker within frame_max |
| FrameCodec.FrameArrives | librabbitmq/amqp_connection.c:302-371 | the decoded frame is the one that was encoded, with its channel, ids, body size, fields and properties |
| FrameCodec.FrameThenRest | librabbitmq/amqp_connection.c:205-381 | from idle, a written frame yields that frame, consumes exactly its bytes and leaves the reader idle |
| FrameCodec.FramesRoundTrip | librabbitmq/amqp_connection.c:205-506 | any list of method, header, body and heartbeat frames, written and received in any chunks, yields exactly those frames and an idle reader |
| FrameCodec.FirstBodyFrame | librabbitmq/amqp_connection.c:233-298 | a body frame that is the first frame of a connection arrives with its first byte zeroed |
| FrameCodec.FirstFrameArrives | librabbitmq/amqp_connection.c:233-298 | any written frame that is the first of a connection arrives if and only if its byte 7 is zero |
| FrameCodec.NewConnectionRoundTrip | librabbitmq/amqp_connection.c:205-506 | any written stream, in any chunks, arrives on a new connection if and only if its byte 7 is zero |
| Pool.NewChunk | librabbitmq/amqp_mem.c:81-127 | an allocation yields an aligned chunk inside a page or its own large block, of at least the bytes asked for and less than 8 more, and opens a page only in the two cases the code has |
| Pool.OldChunk | librabbitmq/amqp_mem.c:81-127 | it does not overlap any chunk handed out before |
| Pool.PoolIsSafe | librabbitmq/amqp_mem.c:47-127 | over every run of allocations and recycles, the live blocks are those of the requests since the last recycle, in order, each with room for what was asked; they and the ranges asked for are disjoint, 8-aligned and in place; and the page count is the most any epoch used |
| Pool.NextFitBound | librabbitmq/amqp_mem.c:81-127 | if an epoch's small requests total B bytes over k >= 1 pages then (k-1) * pagesize < 2 * B |
| Pool.AmqpPool.constructor | librabbitmq/amqp_mem.c:20-32 | an empty pool, with page size 4096 for 0 |
| Pool.AmqpPool.Recycle | librabbitmq/amqp_mem.c:47-52 | large blocks are dropped, pages kept for reuse, and a new epoch begins |
| Pool.AmqpPool.Empty | librabbitmq/amqp_mem.c:54-57 | nothing is kept |
| Pool.AmqpPool.Alloc | librabbitmq/amqp_mem.c:81-127 | fields and block are those of the abstract allocator, and the block has the bytes asked for behind the offset; the chunk joins those of the epoch, all of them in place and disjoint; new arrays are fresh |
| PoolTable.ChannelPools.Get | librabbitmq/amqp_mem.c:188-202 | the bucket search refines a map from channel to pool |
| PoolTable.ChannelPools.GetOrCreate | librabbitmq/amqp_mem.c:161-186 | the channel's one pool, created if missing; no other entry changes |
| PoolTable.ChannelPools.AllocOn | librabbitmq/amqp_mem.c:81-186 | the channel's pool hands out one chunk more, with room for the bytes asked for, and no other pool changes |
| PoolTable.ChannelPools.ChunksShareNothing | librabbitmq/amqp_mem.c:81-202 | of two chunks handed out in the current epochs of any pools, the bytes asked for lie in different arrays or in disjoint ranges |
| PoolTable.ChannelPools.RecycleOn | librabbitmq/amqp_connection.c:425-429 | recycles the pool of that channel and no other |
| Release.ConnectionBuffers.OpenFrame | librabbitmq/amqp_connection.c:277-290 | the page of a frame being received is a chunk handed out by the pool of its channel, with room for the frame, and no queued frame has it |
| Release.ConnectionBuffers.CompleteFrame | librabbitmq/amqp_connection.c:302-371 | raw bytes and decoded struct of a complete frame are two live chunks of its channel's pool that no queued frame has |
| Release.ConnectionBuffers.Enqueue | librabbitmq/amqp_socket.c:808-849 | link, copy, raw bytes and struct of every queued frame are live chunks of the pool of its channel, with room for what was asked, and no chunk serves twice |
| Release.ConnectionBuffers.PutBack | librabbitmq/amqp_socket.c:851-867 | the same for a frame put back |
| Release.ConnectionBuffers.Dequeue | librabbitmq/amqp_socket.c:876-890 | a frame handed out is still live |
| Release.ConnectionBuffers.ReleaseOnChannel | librabbitmq/amqp_connection.c:406-430 | the channel's pool is recycled exactly when no frame is partly received and no frame of the channel is queued; nothing in use is lost |
| Release.ConnectionBuffers.DropHeartbeat | librabbitmq/amqp_socket.c:757-760 | dropping a heartbeat and releasing channel 0 keeps every queued frame live |
| Release.ConnectionBuffers.ReadAndQueue | librabbitmq/amqp_socket.c:693-741 | reading a frame and queueing it, from any state in which a frame is being received |
| Release.ConnectionBuffers.TakeAndPutBack | librabbitmq/amqp_socket.c:851-867 | dequeueing a frame and putting it back keeps the same |
| Release.ConnectionBuffers.QueuedFramesShareNothing | librabbitmq/amqp_socket.c:808-867 | no two blocks of queued frames share a byte of what was asked for |
| Release.ConnectionBuffers.ReleaseAll | librabbitmq/amqp_connection.c:387-398 | every channel without queued frames is recycled, every other is left alone |
| FrameQueue.Queue.Append | librabbitmq/amqp_socket.c:833-849 | on the linked list: the frame is last, the list stays well formed |
| FrameQueue.Queue.AppendBehindLast | librabbitmq/amqp_socket.c:726-731 | the same for the queueing that looks at the last pointer |
| FrameQueue.Queue.PutBack | librabbitmq/amqp_socket.c:851-867 | the frame is first |
| FrameQueue.Queue.TakeFirst | librabbitmq/amqp_socket.c:924-932 | the head is taken; the last pointer is null exactly when the list is empty |
| FrameQueue.Queue.TakeOnChannel | librabbitmq/amqp_socket.c:876-890 | the first frame of the channel is taken, and the list starts behind it |
| Connection.ParseStep | librabbitmq/amqp_socket.c:633-650 | parsing from the front takes exactly the frame it returns off what is still to come |
| Connection.AmqpConnection.ConsumeOneFrame | librabbitmq/amqp_socket.c:633-650 | the same for the connection object |
| Connection.AmqpConnection.Recv | librabbitmq/amqp_socket.c:652-682 | a successful receive replaces the buffer by the next chunk, so nothing to come is lost if the buffer was empty; a failed one changes nothing to come |
| Connection.AmqpConnection.WaitFrameInner | librabbitmq/amqp_socket.c:743-806 | the next frame to come that is not a heartbeat, only heartbeats before it being dropped; refused, on a socket that does not fail, only when nothing is left |
| Connection.AmqpConnection.WaitOnChannel | librabbitmq/amqp_socket.c:869-907 | the first queued frame of the channel, or the first to come, other channels' frames being queued in order |
| Connection.AmqpConnection.WaitNext | librabbitmq/amqp_socket.c:914-935 | the head of the queue, or the next frame to come |
| Connection.AmqpConnection.TryRecv | librabbitmq/amqp_socket.c:693-741 | everything parsed goes to the end of the queue in order, heartbeats included |
| Rpc.AwaitReply | librabbitmq/amqp_socket.c:1028-1093 | after the request, without its deadline: the reply is the first matching frame read, and all earlier frames are queued in arrival order behind what was queued. A normal reply is an expected method on the channel of the call (connection.close, if expected, may come on channel 0); a server exception is channel.close (20, 40) on that channel or connection.close (10, 50) on channel 0; no frame queued on the way is any of these |
| Rpc.OneMoreFrame | librabbitmq/amqp_socket.c:1034-1091 | what one more frame does to the search for a reply |
| Messages.Fragment | librabbitmq/amqp_api.c:218-244 | body fragments of 1 to frame_max - 8 bytes, all but the last full, that concatenate to the body |
| Messages.FragmentationIsUnique | librabbitmq/amqp_api.c:218-244 | these conditions determine the fragments |
| Messages.ReadMessage | librabbitmq/amqp_consumer.c:170-282 | the frames taken off the channel determine the reply: message, close (20, 40) or (10, 50), any other unexpected frame put back, or bad body; other channels' frames are queued in order |
| Messages.ReadBody | librabbitmq/amqp_consumer.c:219-271 | the copying loop: fragments fill a buffer of the announced size, and none may exceed it |
| Messages.PublishedIsRead | librabbitmq/amqp_consumer.c:170-282 | a channel that starts with a published message can only be read as that message |
| Messages.ReadPublished | librabbitmq/amqp_consumer.c:170-282 | a published message, interleaved with anything on other channels, is read back as exactly that body unless the socket fails or times out, and the others are queued in order |
| Delivery.ArrivalsOnChannel | librabbitmq/amqp_connection.c:205-506 | the frames that arrive on a channel are those sent on it, in order |
| Delivery.PublishedArrives | librabbitmq/amqp_api.c:158-247 | what a publisher sends for a message arrives as its header and its fragments |
| Delivery.TransmitAndRead | librabbitmq/amqp_consumer.c:170-282 | a published body, its frames among any others on the wire and the bytes in any chunks, is read back as exactly that body under its header |
| Delivery.TransmitAndReply | librabbitmq/amqp_socket.c:1028-1093 | of the frames sent to an idle connection, in any chunks, the reply is the first method that is expected on the channel of the call, or is (20, 40) on it or (10, 50) on channel 0; only if none is sent does the wait fail |
| Order.StepKeeps | librabbitmq/amqp_socket.c:693-935 | every queue, put-back, wait, RPC and drain step keeps per-channel order and accounts for every frame parsed |
| Order.PerChannelOrder | librabbitmq/amqp_socket.c:693-935 | over every run, each channel's delivered, then queued, then unparsed frames are in wire order, and together with RPC replies, dropped heartbeats and frames cut off ahead of a match they are all frames of the wire, each once |
| Order.TakingFromQueue | librabbitmq/amqp_socket.c:876-890 | a wait served from the queue is such a step |
| Order.TakingFirst | librabbitmq/amqp_socket.c:924-932 | so is taking the head of the queue |
| Order.PuttingBack | librabbitmq/amqp_socket.c:851-867 | so is putting back the frame delivered last |
| Order.WaitingIsReading | librabbitmq/amqp_socket.c:892-907 | so is a wait that reads from the socket |
| Order.WaitingForAny | librabbitmq/amqp_socket.c:914-935 | so is a wait for any frame |
| Order.AwaitingIsReading | librabbitmq/amqp_socket.c:1028-1093 | so is waiting for a reply |
| Order.DrainingIsDraining | librabbitmq/amqp_socket.c:693-741 | so is `amqp_try_recv` |
| Deadlines.First | librabbitmq/amqp_time.c:227-232 | one of the two moments, and neither is earlier |
| Deadlines.Units | librabbitmq/amqp_time.c:85-171 | seconds, microseconds and the milliseconds of `poll` in numbers, for all moments without overflow |
| Deadlines.SecondsFromNowIsExact | librabbitmq/amqp_time.c:116-138 | in the first 292 years of the clock a positive number of seconds never overflows |
| Deadlines.FromNowIsExact | librabbitmq/amqp_time.c:85-114 | a timeout is refused exactly when its remainder modulo 2^64 overflows, and one that is accepted is exact exactly when it is below 2^64 nanoseconds |
| Deadlines.LongTimeoutIsShort | librabbitmq/amqp_time.c:98-111 | a timeout of 585 years ends after 0.3 seconds |
| Deadlines.MsUntilIsExact | librabbitmq/amqp_time.c:146-171 | the wait handed to `poll` ends at the deadline or less than a millisecond before it, if and only if the deadline is less than 2^31 milliseconds away |
| Deadlines.FarDeadlineWraps | librabbitmq/amqp_time.c:167-170 | deadlines 25 and 50 days away give a negative count |
| Sender.TimedConnection.constructor | librabbitmq/amqp_connection.c:109-133 | a tuned connection has both heartbeat deadlines set, or neither |
| Sender.TimedConnection.AwaitSocket | librabbitmq/amqp_socket.c:138-180 | for a deadline that is "never" or less than 2^31 milliseconds away, every `poll` is told to end by it, and a timeout is reported only less than a millisecond before it or later; for "never" no timeout is reported |
| Sender.TimedConnection.TrySend | librabbitmq/amqp_socket.c:253-279 | the socket has accepted a prefix of the bytes, of the length reported; for such a deadline every poll ends by it and by the receive deadline, and a partial send means that it passed |
| Sender.TimedConnection.RecvWithTimeout | librabbitmq/amqp_socket.c:652-691 | a successful read records its time and moves the receive deadline to two intervals from then or later, unless the clock fails; what the buffer held is overwritten, and nothing else to come is lost |
| Sender.TimedConnection.Refill | librabbitmq/amqp_socket.c:658-684 | the receive itself: the next chunk replaces the buffer, and what was to come is exactly as before but for the bytes overwritten |
| Sender.TimedConnection.TryRecv | librabbitmq/amqp_socket.c:693-741 | everything parsed is queued in order, nothing is overwritten, and with its deadline taken as "never" it cannot time out |
| Sender.TimedConnection.SendFrame | librabbitmq/amqp_connection.c:513-564 | under every pattern of partial sends, polls and receives: success means the socket accepted the whole encoding once and in order, a timeout a proper prefix; if heartbeats are on or the deadline is less than 2^31 milliseconds away, a timeout means that it passed and every poll for sending ends by it and by the receive deadline; frames received meanwhile are queued in order, nothing is overwritten, and no heartbeat timeout is ever reported |
| Sender.HeartbeatEncodes | librabbitmq/amqp_connection.c:432-506 | a heartbeat is the eight bytes 8, 0, 0, 0, 0, 0, 0, 206 |
| Sender.TimedConnection.SendHeartbeatIfDue | librabbitmq/amqp_socket.c:764-780 | what is sent is a prefix of those eight bytes: all of them on success if the send deadline has passed, and nothing if it has not or no interval is set |
| Sender.TimedConnection.ReceiveMore | librabbitmq/amqp_socket.c:764-804 | the reason of every timeout is one of three deadlines, so the abort is never reached; frames parsed in a send are queued and gaps account for all bytes overwritten; when a due heartbeat stalls until the receive deadline, the chunk received meanwhile is overwritten by the next; all it sends is heartbeats, whole unless the wait is refused for another reason than a timeout, and at least one if the send deadline has passed |
| Sender.TimedConnection.WaitFrame | librabbitmq/amqp_socket.c:743-806 | a heartbeat timeout means that the latest read, if the clock worked then, lies two intervals back less under a millisecond; polls for reading end by all three deadlines, polls for sending by the receive deadline (given heartbeats, or a deadline less than 2^31 milliseconds away); if no interval is set or no heartbeat falls due, there are only polls for reading; the real frames taken off the stream are those queued, in order, and the one delivered, never a heartbeat; gaps account for all that was overwritten, and there are none if no send went on to receive, in which case the untimed contract holds; all it sends is heartbeats, in the same way |
| HeartbeatRuns.DeadlineIsOutlasted | librabbitmq/amqp_socket.c:764-783 | for every heartbeat interval, a run whose first poll ends after the send deadline, and after the caller's deadline if that is a millisecond or more before the receive deadline |
| HeartbeatRuns.FramesAreLost | librabbitmq/amqp_socket.c:764-788 | for every heartbeat interval, and any frames that fit one receive followed by any that fit the next, a run in which all were to come before the wait, and afterwards only the latter are delivered, queued or to come |
| TimedRpc.SimpleRpc | librabbitmq/amqp_socket.c:1014-1094 | the whole request is accepted once, before anything else, frames that arrive meanwhile being queued; in every run the real frames then taken off the stream are those queued, in order, and last the reply, and gaps account for what was overwritten; unless a heartbeat sent on the way went on to receive, the reply is the first matching frame; a timeout means that the deadline passed; the methods that end the wait are those of `Rpc.AwaitReply`, by number; if the send fails a prefix of the request is accepted, and otherwise behind it nothing but heartbeats |
| TimedRpc.AwaitTimedReply | librabbitmq/amqp_socket.c:1028-1093 | the same from the moment the request has been sent |
| TimedRpc.RepliedMore | librabbitmq/amqp_socket.c:1031-1091 | what one more wait does to the search for a reply |
| Timeline.OverwrittenFramesAreLost | librabbitmq/amqp_socket.c:652-684 | if complete frames at the front of the stream are overwritten, exactly all frames but those are still to come |
| Merge.PlaceTableLies | librabbitmq/amqp_table.c:568-597 | a table placed in a pool lies in it with every string, array and nested table, and is the same table |
| Merge.RefusedInside | librabbitmq/amqp_table.c:444-597 | an unknown kind or an empty key is refused wherever it stands in arrays and tables, while arrays and tables of scalars and strings under non-empty keys are not |
| Merge.CloneValue | librabbitmq/amqp_table.c:444-549 | a clone lies wholly in the given pool, or the value has an unknown kind or an empty key and is refused |
| Merge.CloneTable | librabbitmq/amqp_table.c:551-597 | the same for a table |
| Merge.GetEntryByKey | librabbitmq/amqp_table.c:626-636 | the first entry with the key |
| Merge.AddEntry | librabbitmq/amqp_socket.c:1177-1199 | one round of the merge loop on the temporary array |
| Merge.MergeCapabilities | librabbitmq/amqp_socket.c:1150-1204 | the result is the merged table laid out in the caller's pool alone, never in the temporary one, or the status of the step that failed |
| MergeSpec.MergedLookup | librabbitmq/amqp_socket.c:1145-1149 | key by key, the merged table is the right-biased union, tables being united recursively |
| MergeSpec.MergeMeetsSpec | librabbitmq/amqp_socket.c:1150-1204 | with distinct keys at each level of `add`, the code succeeds exactly when no merged pair is empty on both sides and the result can be cloned, and then returns the recursive merge in order |
| MergeSpec.MergesFully | librabbitmq/amqp_socket.c:1177-1199 | for every `base` and `add`, repeated keys included: the merge succeeds if and only if the two are not both empty, every table that meets a table finds one in `base` with which it can be merged, and the result can be cloned; the result has the keys of `base` in order, then the new ones by first occurrence, each with its last value, a table being merged with `base`'s if it meets one |
| MergeSpec.FullIsMerged | librabbitmq/amqp_socket.c:1177-1199 | with distinct keys at each level this is the right-biased merge |
| MergeSpec.UndefinedExactly | librabbitmq/amqp_socket.c:1177-1199 | for every `base` and `add`, the merge is undefined if and only if the first entry of `add` that does not pass is a table meeting a table where `base` has none, or leads to such an entry further down |
| MergeSpec.DistinctIsDefined | librabbitmq/amqp_socket.c:1177-1199 | with distinct keys at each level no merge is undefined |
| MergeSpec.DuplicateTableIsUndefined | librabbitmq/amqp_socket.c:1181-1187 | in particular, a second table under a key that `base` lacks is |
| MergeSpec.FirstAdditionsAreLost | librabbitmq/amqp_socket.c:1183-1188 | a second table under a key where `base` has one gives the result that would be there without the first |
| Url.Scan | librabbitmq/amqp_url.c:30-78 | a scan ends at a delimiter or an error, and its text is shorter than what it read |
| UrlParser.FindDelim | librabbitmq/amqp_url.c:30-78 | in place, writing never past the read position: the decoded text and a NUL, the bytes before and behind untouched |
| UrlParser.HoldsStill | librabbitmq/amqp_url.c:81-188 | later scans never overwrite earlier components |
| UrlParser.ReadFront | librabbitmq/amqp_url.c:100-122 | what the first one to three scans found: user, password, host or port |
| UrlParser.ReadHost | librabbitmq/amqp_url.c:124-152 | a bracketed address that is the whole host, or the host already read |
| UrlParser.ReadTail | librabbitmq/amqp_url.c:154-182 | the port number, if any, and the virtual host |
| UrlParser.ParseInPlace | librabbitmq/amqp_url.c:81-188 | succeeds exactly on buffers that begin with a URL printed from valid parts, in any spelling, and the strings its pointers designate at the end are what the parts spell, with the defaults for those left out |
| UrlPrinter.PercentSign | librabbitmq/amqp_url.c:56-71 | a percent sign is an error exactly if it is not followed by two of the 22 hexadecimal digits that denote at most 127; otherwise that byte comes first and the scan goes on behind |
| UrlPrinter.ScanPrinted | librabbitmq/amqp_url.c:30-78 | any spelling of a text, each byte plain or as digits in either case, followed by a delimiter scans as that text and that delimiter |
| UrlPrinter.ScannedIsPrinted | librabbitmq/amqp_url.c:30-78 | and whatever is scanned up to a delimiter has such a spelling |
| UrlPrinter.PortRoundTrip | librabbitmq/amqp_url.c:159-168 | the digits of a number are a port exactly up to 65535, with a plus sign too; behind a minus sign only 0 |
| UrlPrinter.SpaceBeforePort | librabbitmq/amqp_url.c:159-168 | white space in front of a port is skipped |
| UrlPrinter.UrlRoundTrip | librabbitmq/amqp_url.c:81-188 | every URL printed from valid parts, in any spelling and whatever follows it in the buffer, is parsed into what its parts spell, with the defaults for those left out |
| UrlPrinter.AcceptsExactly | librabbitmq/amqp_url.c:81-188 | the parser accepts a buffer if and only if it begins with a URL printed from valid parts; any other scheme, delimiter, escape, bracket or port is refused |
| UrlPrinter.AllParts | librabbitmq/amqp_url.c:81-182 | the printed form with user, password, host, port and virtual host, its delimiters in numbers |
| UrlPrinter.Brackets | librabbitmq/amqp_url.c:124-145 | the same for a bracketed address |
| UrlPrinter.Defaults | librabbitmq/amqp_url.c:19-27 | `amqp://` and `amqps://` alone give guest, guest, localhost, port 5672 or 5671 and the virtual host / |

## Left out

- The 60 method structs are covered by the generator for any field list; queue.declare is the one instance compared with the generated C code.
- Failure of `malloc`, `calloc` and `realloc`; a zero-size request, which the allocator answers with null, is modelled.
- Socket creation, TLS, `select`, Win32 and the system calls themselves; they appear as scripts.
- Login, SASL, tune negotiation, `amqp_consume_message`, `amqp_basic_properties_clone`, error strings, the lookup switches, tools and examples: straight-line code with easy contracts.
- How long the cloned server and client properties of a connection stay valid.
- Which publish frame carries the hint that more follows.
- The state of the frame reader after it has returned an error; such a connection is marked broken and not used further.
- Method payloads below 4 bytes, header payloads below 12 bytes and a third flag word, on which the C code has no defined result, are reported as `Undefined`.
- FrameCodec.FramesRoundTrip: needs frame_max of at least 20, below which the writer's room computations wrap round, and structs that match their field types.
- Connection.AmqpConnection.WaitFrameInner: the loop without deadlines, heartbeat sends and the release of channel 0; `Sender.TimedConnection.WaitFrame` has the first two, `Release.ConnectionBuffers.DropHeartbeat` the third.
- FrameCodec.FrameToBytes: the method and property encoders are run on values and their bytes copied into the buffer; the table encoder alone is modelled inside a buffer, in `TableCodec`.
- Rpc.AwaitReply: begins after the request has been sent and has no deadline; `TimedRpc.SimpleRpc` has both.
- Messages.ReadMessage: leaves out the clone of the properties into the message's own pool and its failure, and claims the frames only for a channel with none of its frames queued beforehand; termination and validity hold in any case.
- Order.PerChannelOrder: a run goes up to the first parse error, if there is one; the connection is not used beyond it.
- Sender.TimedConnection.WaitFrame: after a clock failure behind a read, the bound on the heartbeat timeout does not speak of that read. Closing the socket after a heartbeat timeout, as after a timed-out RPC, is not modelled.
- Sender.TimedConnection.ReadClock: a clock beyond 2^63 nanoseconds is taken to be unreadable, so heartbeat deadlines do not overflow there; `Deadlines` has the overflow tests.
- TimedRpc.SimpleRpc: that the reply is the first match is not claimed once a heartbeat send went on to receive, as frames received there are queued unseen.
- Release.ConnectionBuffers: keeps the channels of the queued frames and the reader's phase itself; it is not composed with `FrameQueue` and `FrameReader`.
- Merge.MergeCapabilities: base and added tables are values, so that they stay unchanged is part of the model, not a theorem.
- Url.Scan: a percent sign takes exactly two hexadecimal digits; the signs and spaces that `sscanf` would accept there are not modelled. Port numbers follow `strtol` in full, except that a value beyond the range of `long` is not cut off, which changes no outcome.
- Pool.AmqpPool.Alloc: sizes are unbounded, so rounding up near the largest size does not wrap round.
