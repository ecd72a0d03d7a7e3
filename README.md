# cfcloud_mall log transport, modelled in Dafny

This project models the log transport of cfcloud_mall (`libs/loglib` and the dictionary it is
built on) and proves properties of the model:

- **The wire codec** (`ProtocolCodec`, `protocol.py`). A frame is a 13-byte header (struct
  format `"!4s2i?"`: magic `1A 2B 3C 4D`, big-endian signed 32-bit body length, big-endian
  signed 32-bit serializer tag, compress flag) followed by the body. `encode` is the function
  `Codec.Encode`. The decoding loop of `_decode_buffered` is the method `Codec.DecodeLoop`,
  proved against the specification function `Codec.DecodeFrom`. The serializer table filled
  by `register_serializer` is `Codec.SerializerRegistry`. `DecodeFrom` reads a body the way
  the source does: an uncompressed body reaches the serializer as a `memoryview`, which
  JSON's `deserialize` cannot decode (see Findings). The incremental decoder, the class
  `Codec.ProtocolCodec`, uses the corrected reading: it copies the body to `bytes` first
  (`Codec.Copying`) and treats a negative declared length as a corrupt header.
- **`ThreadSafeDict`** (`concurrent.py`), as the sequential map it behaves like under its lock,
  with Python truthiness in `compute` and `compute_if_absent` given as a predicate per call.
- **The endpoints** (`handler.py`):
  - the publishing handler, with its FIFO queue, stop sentinel and sender loop;
  - the listener's start/stop flags and its per-message decode-and-route step;
  - the proxy handler;
  - the three process-wide registries and `cleanup`.
  The routing rule of `_handle`, the `prepare` rewrite and the endpoint address are pure
  functions in `LogRecords`; the queue and the frames the sender writes are in `SendQueue`.

Files:
- `wrappers.dfy`: Option, Result, and the Python exceptions the core raises.
- `bytes.dfy`: bytes and big-endian int32.
- `codec.dfy` and `codec_lemmas.dfy`: the codec and its properties.
- `safedict.dfy`: `ThreadSafeDict`.
- `records.dfy`: records, routing and addresses.
- `sendqueue.dfy`: the publisher queue and its frames.
- `handler.dfy`: the endpoints and registries.

JSON, pickle and zlib are not modelled. A serializer is a pair of functions, and so is the
compressor. Where a property needs a serializer to read back what it wrote, it takes that as a
hypothesis: `RoundTrips` for the serializer, `Inflates` for zlib.

## Model

| member | source | states |
|---|---|---|
| Bytes.UnsignedRoundTrip | cfcloud_mall/cfcloud_mall/libs/loglib/protocol.py:104-105 | reading back the k-byte big-endian encoding of an unsigned value gives the value |
| Bytes.Int32RoundTrip | cfcloud_mall/cfcloud_mall/libs/loglib/protocol.py:104-105 | unpacking the four bytes "!i" packs for any int32 gives the int32 back, sign included |
| Bytes.UnsignedOfFour | cfcloud_mall/cfcloud_mall/libs/loglib/protocol.py:104-105 | for four bytes, the big-endian reading is the weighted sum that unpacking uses |
| Bytes.Int32Bytes | cfcloud_mall/cfcloud_mall/libs/loglib/protocol.py:148 | `struct.pack("!i")` writes exactly four bytes |
| Bytes.Int32Of | cfcloud_mall/cfcloud_mall/libs/loglib/protocol.py:104-105 | `struct.unpack("!i")` of four bytes is a signed 32-bit value |
| Codec.HeaderBytes | cfcloud_mall/cfcloud_mall/libs/loglib/protocol.py:77-79 | a packed header is exactly 13 bytes |
| CodecProperties.MagicAtSlice | cfcloud_mall/cfcloud_mall/libs/loglib/protocol.py:107 | the magic test holds exactly when the four bytes at the offset equal `1A 2B 3C 4D` |
| Codec.ParseHeader | cfcloud_mall/cfcloud_mall/libs/loglib/protocol.py:104-110 | unpacking at an offset yields a header exactly when the magic number is there |
| Codec.Find | cfcloud_mall/cfcloud_mall/libs/loglib/protocol.py:159 | `find` yields the first magic at or after the start, with none in between, or nothing when there is none |
| Codec.FindNextHeader | cfcloud_mall/cfcloud_mall/libs/loglib/protocol.py:151-162 | an index exists iff the buffer is longer than offset + 4; it is strictly past the offset and at most the length; no magic starts in between; it is a magic or length - 3 |
| Codec.JsonSerializer | cfcloud_mall/cfcloud_mall/libs/loglib/protocol.py:53-61 | the JSON serializer is the given dumps/loads pair, and its `deserialize` does not accept a `memoryview` |
| Codec.PickleSerializer | cfcloud_mall/cfcloud_mall/libs/loglib/protocol.py:63-69 | the pickle serializer is the given dumps/loads pair, and `pickle.loads` accepts a `memoryview` |
| Codec.Payload | cfcloud_mall/cfcloud_mall/libs/loglib/protocol.py:143-146 | given a zlib round trip, the body decompresses (when compressed) to exactly the serializer's output |
| Codec.Encode | cfcloud_mall/cfcloud_mall/libs/loglib/protocol.py:134-149 | KeyError for an unregistered tag; succeeds iff tag and body length fit int32; the frame is 13 + body length bytes: packed header (length, tag, flag), then the body |
| Codec.BodyValue | cfcloud_mall/cfcloud_mall/libs/loglib/protocol.py:122-126 | the body yields nothing for an unregistered tag, for a compressed body zlib rejects, and for an uncompressed body handed to a serializer that does not accept a `memoryview`; a value comes only from a registered tag whose body was decompressed or is accepted as a view |
| Codec.Copying | cfcloud_mall/cfcloud_mall/libs/loglib/protocol.py:120 | the corrected table has the same tags, and each serializer is the original one reading a copied body |
| Codec.StepAt | cfcloud_mall/cfcloud_mall/libs/loglib/protocol.py:101-128 | one loop iteration that does not stop moves the offset strictly forward and stays in the buffer |
| Codec.DecodeFrom | cfcloud_mall/cfcloud_mall/libs/loglib/protocol.py:97-130 | decoding from an offset stops at an offset between it and the buffer end |
| Codec.DecodeFromStop | cfcloud_mall/cfcloud_mall/libs/loglib/protocol.py:101-118 | with fewer than 13 bytes, or a good header without its whole body, decoding yields nothing and stops there |
| Codec.DecodeFromSkip | cfcloud_mall/cfcloud_mall/libs/loglib/protocol.py:106-114 | at a bad header, decoding continues at the next header index |
| Codec.DecodeFromFrame | cfcloud_mall/cfcloud_mall/libs/loglib/protocol.py:115-128 | a complete frame contributes its record, or nothing when its body fails, before the records after its end |
| Codec.AsWrittenNext | cfcloud_mall/cfcloud_mall/libs/loglib/protocol.py:115-121 | the loop's next offset after a frame is offset + 13 + the signed declared length |
| Codec.DecodeLoop | cfcloud_mall/cfcloud_mall/libs/loglib/protocol.py:97-128 | the while loop collects exactly the records `DecodeFrom` gives from offset 0, in order, and stops at the offset `DecodeFrom` stops at |
| Codec.SerializerRegistry.constructor | cfcloud_mall/cfcloud_mall/libs/loglib/protocol.py:14 | the table starts empty |
| Codec.SerializerRegistry.Register | cfcloud_mall/cfcloud_mall/libs/loglib/protocol.py:16-27 | registering a bound tag raises KeyError and keeps the first serializer; otherwise the tag is bound |
| Codec.StandardRegistry | cfcloud_mall/cfcloud_mall/libs/loglib/protocol.py:52-69 | import-time registration binds exactly tag 0 to the JSON serializer (no `memoryview`) and tag 1 to the pickle serializer |
| Codec.ProtocolCodec.constructor | cfcloud_mall/cfcloud_mall/libs/loglib/protocol.py:81-82 | a new codec has an empty buffer |
| Codec.ProtocolCodec.Decode | cfcloud_mall/cfcloud_mall/libs/loglib/protocol.py:84-95 | `decode` yields the records the corrected decoder finds in old buffer + chunk; the buffer becomes the suffix from where decoding stopped |
| Codec.ProtocolCodec.DecodeBuffered | cfcloud_mall/cfcloud_mall/libs/loglib/protocol.py:97-132 | yields the records the corrected decoder (`DecodeFrom` over `Copying` of the table) gives, in order, and trims the consumed prefix |
| CodecProperties.ParseHeaderBytes | cfcloud_mall/cfcloud_mall/libs/loglib/protocol.py:104-105 | the bytes of a packed header unpack to that header |
| CodecProperties.EncodeParts | cfcloud_mall/cfcloud_mall/libs/loglib/protocol.py:143-149 | an encoded frame has a bound tag, a packable header for its body length, and the serialized (compressed when flagged) body |
| CodecProperties.BodyValueRoundTrip | cfcloud_mall/cfcloud_mall/libs/loglib/protocol.py:122-126 | given serializer and zlib round trips, a written body decodes to the value written, when it is compressed or its serializer accepts a `memoryview` |
| CodecProperties.FrameStep | cfcloud_mall/cfcloud_mall/libs/loglib/protocol.py:115-126 | an encoded frame (compressed, or for a serializer that accepts a `memoryview`) at any offset of any buffer is one step yielding its value and moving past the frame |
| CodecProperties.DecodeFromRecord | cfcloud_mall/cfcloud_mall/libs/loglib/protocol.py:120-126 | a step that takes a record puts it in front of the records that follow |
| CodecProperties.DecodeOverFrame | cfcloud_mall/cfcloud_mall/libs/loglib/protocol.py:115-126 | decoding over an encoded frame (compressed, or for a serializer that accepts a `memoryview`) yields its record, then what follows the frame |
| CodecProperties.RoundTrip | cfcloud_mall/cfcloud_mall/libs/loglib/protocol.py:84-149 | as written, `decode(encode(x))` yields exactly [x] and consumes the whole frame when the frame is compressed or its serializer accepts a `memoryview` |
| CodecProperties.PartialFrameKept | cfcloud_mall/cfcloud_mall/libs/loglib/protocol.py:115-118 | any proper prefix of a frame yields nothing and nothing is consumed |
| CodecProperties.UnknownTagStep | cfcloud_mall/cfcloud_mall/libs/loglib/protocol.py:120-128 | a complete frame with an unregistered tag is one step that yields nothing and moves to the end of its body |
| CodecProperties.UnknownTagSkipped | cfcloud_mall/cfcloud_mall/libs/loglib/protocol.py:120-128 | a frame whose tag has no serializer is dropped alone, and decoding continues after its body |
| CodecProperties.FindFirst | cfcloud_mall/cfcloud_mall/libs/loglib/protocol.py:159 | the search returns the first magic when none starts before it |
| CodecProperties.GarbageSkipped | cfcloud_mall/cfcloud_mall/libs/loglib/protocol.py:151-162 | bytes before the next magic are skipped: decoding from there equals decoding from that magic |
| CodecProperties.NoMagicAcross | cfcloud_mall/cfcloud_mall/libs/loglib/protocol.py:79 | the magic cannot overlap itself, so no magic starts in magic-free garbage and ends in a following frame |
| CodecProperties.StepWaitIsResidue | cfcloud_mall/cfcloud_mall/libs/loglib/protocol.py:101-118 | the loop stops exactly at fewer than 13 bytes or a good header whose body is incomplete |
| CodecProperties.DecodeStopsAtResidue | cfcloud_mall/cfcloud_mall/libs/loglib/protocol.py:101-130 | the bytes kept for the next call are such a residue |
| CodecProperties.MagicAtWindow | cfcloud_mall/cfcloud_mall/libs/loglib/protocol.py:159 | the magic test reads the same through a window of the buffer |
| CodecProperties.GarbageThenStep | cfcloud_mall/cfcloud_mall/libs/loglib/protocol.py:107-110 | after magic-free garbage, the first magic is the frame's, and the decoder takes the frame there (compressed, or for a serializer that accepts a `memoryview`) |
| CodecProperties.GarbageThenFrame | cfcloud_mall/cfcloud_mall/libs/loglib/protocol.py:107-110 | magic-free garbage followed by a frame (compressed, or for a serializer that accepts a `memoryview`) decodes to the frame's record and then the rest |
| CodecProperties.Halves | cfcloud_mall/cfcloud_mall/libs/loglib/protocol.py:94 | the two parts of a concatenated buffer, as slices |
| CodecProperties.InterleavedGarbage | cfcloud_mall/cfcloud_mall/libs/loglib/protocol.py:101-130 | garbage, frame, garbage, frame in one chunk decodes to both records in order, consuming everything, when each frame is compressed or its serializer accepts a `memoryview` |
| CodecProperties.NegativeLengthStalls | cfcloud_mall/cfcloud_mall/libs/loglib/protocol.py:115-121 | as written, a header declaring length -13 moves the offset back onto itself with the loop condition still true |
| CodecProperties.NegativeLengthResyncs | cfcloud_mall/cfcloud_mall/libs/loglib/protocol.py:107-121 | the corrected decoder resynchronises past such a header and stops |
| CodecProperties.ShortNegativeLengthDiffers | cfcloud_mall/cfcloud_mall/libs/loglib/protocol.py:115-121 | for a header declaring length -1, the source moves on to offset 12, while the corrected decoder resynchronises and stops at offset 10 |
| CodecProperties.ViewBodyDropped | cfcloud_mall/cfcloud_mall/libs/loglib/protocol.py:120-126 | as written, an uncompressed frame for a serializer that does not accept a `memoryview` (JSON) decodes to no record, although the whole frame is consumed |
| CodecProperties.CopyingEncodes | cfcloud_mall/cfcloud_mall/libs/loglib/protocol.py:134-149 | copying the body before deserializing changes nothing about what `encode` writes |
| CodecProperties.CopiedRoundTrip | cfcloud_mall/cfcloud_mall/libs/loglib/protocol.py:84-149 | with the body copied, `decode(encode(x))` yields exactly [x] for every registered serializer, compressed or not |
| CodecProperties.FrameInTwoChunks | cfcloud_mall/cfcloud_mall/libs/loglib/protocol.py:84-95 | on the codec class, a frame split across two `decode` calls at any point yields nothing, then the record, and leaves the buffer empty, for every serializer |
| Concurrent.Lookup | cfcloud_mall/cfcloud_mall/libs/concurrent.py:104 | `data.get(key)` is the stored value exactly when the key is present |
| Concurrent.ComputedMap | cfcloud_mall/cfcloud_mall/libs/concurrent.py:90-100 | after `compute`, other keys are untouched; a truthy value is stored; a falsy one removes the key only if its old value was truthy |
| Concurrent.FilledMap | cfcloud_mall/cfcloud_mall/libs/concurrent.py:102-110 | after `compute_if_absent`, other keys are untouched; the map changes only when the old value is falsy or absent and the factory value is truthy |
| Concurrent.FilledValue | cfcloud_mall/cfcloud_mall/libs/concurrent.py:102-110 | `compute_if_absent` returns a truthy old value, else a truthy factory value, else the old value |
| Concurrent.FilledValueIsStored | cfcloud_mall/cfcloud_mall/libs/concurrent.py:104-110 | a truthy result of `compute_if_absent` is what the key holds afterwards |
| Concurrent.FillIsIdempotent | cfcloud_mall/cfcloud_mall/libs/concurrent.py:102-110 | a second `compute_if_absent` on a filled key returns the same value and changes nothing, whatever its factory |
| Concurrent.ComputeThenLookup | cfcloud_mall/cfcloud_mall/libs/concurrent.py:90-100 | `get` after `compute` sees the truthy new value, or a kept falsy entry, or nothing |
| Concurrent.ComputeFalsyThenFill | cfcloud_mall/cfcloud_mall/libs/concurrent.py:97-110 | after a falsy `compute`, `compute_if_absent` with a truthy factory stores its value |
| Concurrent.ThreadSafeDict.constructor | cfcloud_mall/cfcloud_mall/libs/concurrent.py:6-8 | a new dictionary is empty |
| Concurrent.ThreadSafeDict.Len | cfcloud_mall/cfcloud_mall/libs/concurrent.py:10-12 | `len` is the number of keys |
| Concurrent.ThreadSafeDict.Get | cfcloud_mall/cfcloud_mall/libs/concurrent.py:66-68 | `get` gives the stored value, or the default when the key is absent |
| Concurrent.ThreadSafeDict.Contains | cfcloud_mall/cfcloud_mall/libs/concurrent.py:70-72 | `in` holds exactly for stored keys |
| Concurrent.ThreadSafeDict.SetItem | cfcloud_mall/cfcloud_mall/libs/concurrent.py:22-24 | assignment binds the key and nothing else changes |
| Concurrent.ThreadSafeDict.DelItem | cfcloud_mall/cfcloud_mall/libs/concurrent.py:26-28 | `del` removes a present key; an absent key raises KeyError and nothing changes |
| Concurrent.ThreadSafeDict.Pop | cfcloud_mall/cfcloud_mall/libs/concurrent.py:42-44 | `pop` removes and returns a present key's value; otherwise it returns the default and changes nothing |
| Concurrent.ThreadSafeDict.SetDefault | cfcloud_mall/cfcloud_mall/libs/concurrent.py:50-52 | `setdefault` returns the present value unchanged, or stores and returns the default |
| Concurrent.ThreadSafeDict.Compute | cfcloud_mall/cfcloud_mall/libs/concurrent.py:90-100 | the map becomes `ComputedMap`; it returns the new value when truthy, else None |
| Concurrent.ThreadSafeDict.ComputeIfAbsent | cfcloud_mall/cfcloud_mall/libs/concurrent.py:102-110 | the factory runs iff the old value is falsy or absent; the map becomes `FilledMap`; it returns `FilledValue` |
| LogRecords.Prepare | cfcloud_mall/cfcloud_mall/libs/loglib/handler.py:131-149 | msg and message are the formatted text; args, exc_info, exc_text and stack_info are cleared; level and proxy id are kept |
| LogRecords.Stamp | cfcloud_mall/cfcloud_mall/libs/loglib/handler.py:420 | the record carries the proxy id and keeps its level |
| LogRecords.Selected | cfcloud_mall/cfcloud_mall/libs/loglib/handler.py:295-296 | a handler is selected iff it is in the list and its level is at most the record's level |
| LogRecords.SelectedAppend | cfcloud_mall/cfcloud_mall/libs/loglib/handler.py:295-296 | selection distributes over concatenated handler lists |
| LogRecords.Walk | cfcloud_mall/cfcloud_mall/libs/loglib/handler.py:295-297 | the loop over a handler list calls at most as many handlers as the list has |
| LogRecords.Dispatch | cfcloud_mall/cfcloud_mall/libs/loglib/handler.py:290-301 | no proxy id (RuntimeError) or an id without an entry (TypeError on None): no handler is called and the error is caught |
| LogRecords.WalkCallsSelectedPrefix | cfcloud_mall/cfcloud_mall/libs/loglib/handler.py:290-301 | the handlers called are a prefix of the selected ones; none raised except possibly the last; if an error was caught, the last one called raised it |
| LogRecords.WalkRaisesIffSelectedFails | cfcloud_mall/cfcloud_mall/libs/loglib/handler.py:290-301 | an error is caught iff some selected handler raises; if none does, every selected handler is called, in order |
| LogRecords.DispatchCallsSelected | cfcloud_mall/cfcloud_mall/libs/loglib/handler.py:291-297 | with no raising handler, `_handle` calls exactly the handlers whose level passes, in list order |
| LogRecords.PrepareKeepsRoute | cfcloud_mall/cfcloud_mall/libs/loglib/handler.py:131-149 | a prepared record is routed as the original was |
| LogRecords.StampRoutes | cfcloud_mall/cfcloud_mall/libs/loglib/handler.py:292-297 | a stamped record is routed to its proxy's handlers, or to none when the proxy has no entry |
| LogRecords.DigitChar | cfcloud_mall/cfcloud_mall/libs/loglib/handler.py:34 | a digit is '0'..'9' |
| LogRecords.Decimal | cfcloud_mall/cfcloud_mall/libs/loglib/handler.py:34 | `str(port)` is non-empty, all digits, and one digit exactly for ports below 10 |
| LogRecords.DecimalInjective | cfcloud_mall/cfcloud_mall/libs/loglib/handler.py:34 | different ports print differently |
| LogRecords.Address | cfcloud_mall/cfcloud_mall/libs/loglib/handler.py:34 | the address starts with "tcp://" followed by the host |
| LogRecords.ColonFromEnd | cfcloud_mall/cfcloud_mall/libs/loglib/handler.py:34 | counting back over the port digits, the ':' comes exactly after the digits |
| LogRecords.AddressInjective | cfcloud_mall/cfcloud_mall/libs/loglib/handler.py:93-98 | two addresses are equal iff host and port are, so registry keys identify endpoints |
| SendQueue.Msgs | cfcloud_mall/cfcloud_mall/libs/loglib/handler.py:161 | queued records become message items, one each, with no sentinel |
| SendQueue.Pending | cfcloud_mall/cfcloud_mall/libs/loglib/handler.py:120-125 | the records the sender takes before the sentinel are at most the queue's length |
| SendQueue.AfterSentinel | cfcloud_mall/cfcloud_mall/libs/loglib/handler.py:122-125 | what the sender leaves is shorter than the queue, or empty |
| SendQueue.QueueSplit | cfcloud_mall/cfcloud_mall/libs/loglib/handler.py:120-125 | a queue is its pending records, then the sentinel and the rest (or only the pending records if it has no sentinel) |
| SendQueue.StopAfterEmits | cfcloud_mall/cfcloud_mall/libs/loglib/handler.py:120-125 | the sender takes every record queued before `stop`'s sentinel, in order, and leaves what came after |
| SendQueue.Frames | cfcloud_mall/cfcloud_mall/libs/loglib/handler.py:126-129 | a record whose encoding raises KeyError or struct.error is skipped, so there are at most as many frames as records |
| SendQueue.Sendable | cfcloud_mall/cfcloud_mall/libs/loglib/handler.py:126-129 | there is one sendable record per frame written |
| SendQueue.SendFrameHeader | cfcloud_mall/cfcloud_mall/libs/loglib/handler.py:126 | the sender's `encode` raises KeyError without a JSON serializer; a frame it writes starts with a packed header marked JSON and compressed that declares the body's length |
| SendQueue.FramesSendable | cfcloud_mall/cfcloud_mall/libs/loglib/handler.py:126-129 | the i-th frame sent is the encoding of the i-th record that encodes |
| SendQueue.FramesCons | cfcloud_mall/cfcloud_mall/libs/loglib/handler.py:126-129 | one record's frame, if any, precedes the frames of the rest |
| SendQueue.FramesStep | cfcloud_mall/cfcloud_mall/libs/loglib/handler.py:126-129 | taking a record off the front of the list, its frame leads the bytes sent |
| SendQueue.SplitTail | cfcloud_mall/cfcloud_mall/libs/loglib/handler.py:127 | a buffer holding one frame and then more splits at that frame's end |
| SendQueue.DecodeSentFrames | cfcloud_mall/cfcloud_mall/libs/loglib/handler.py:126-127 | frames sent end to end decode to the sendable records in order, consuming everything |
| SendQueue.DecodeFrameThen | cfcloud_mall/cfcloud_mall/libs/loglib/handler.py:126-127 | a sent frame followed by frames that decode to xs decodes to its record followed by xs |
| SendQueue.SentFramesDecode | cfcloud_mall/cfcloud_mall/libs/loglib/handler.py:126-127 | what the sender writes decodes on the listener to the same records in the same order |
| LogHandler.Publisher.constructor | cfcloud_mall/cfcloud_mall/libs/loglib/handler.py:65-79 | a new handler is running at "tcp://host:port", its sender thread alive, with an empty queue |
| LogHandler.Publisher.Emit | cfcloud_mall/cfcloud_mall/libs/loglib/handler.py:151-164 | the prepared record is put at the back of the queue |
| LogHandler.Publisher.Start | cfcloud_mall/cfcloud_mall/libs/loglib/handler.py:166-177 | no-op while running; otherwise running is set and restarting the thread raises RuntimeError; a finished sender stays finished |
| LogHandler.Publisher.Stop | cfcloud_mall/cfcloud_mall/libs/loglib/handler.py:179-195 | no-op when stopped; otherwise running is cleared, one sentinel is queued after every earlier item, and the sender has finished |
| LogHandler.Publisher.SendLogs | cfcloud_mall/cfcloud_mall/libs/loglib/handler.py:115-129 | a sender that has finished, or runs while the flag is cleared, sends nothing and leaves the queue; otherwise the frames of the records before the sentinel are sent in FIFO order, unencodable records skipped; the sender returns iff it met the sentinel, and is then finished; what follows the sentinel stays queued |
| LogHandler.RestartSendsNothing | cfcloud_mall/cfcloud_mall/libs/loglib/handler.py:166-195 | after `stop`, `start` raises RuntimeError and a record emitted then stays queued and is never sent (the sentinel is still in the queue because the `join` in `stop` is not modelled) |
| LogHandler.ReceiveFrame | cfcloud_mall/cfcloud_mall/libs/loglib/handler.py:354-358 | one message holding a frame the publisher sent decodes, on a fresh listener codec, to exactly its record and leaves the buffer empty |
| LogHandler.ReceiveFrames | cfcloud_mall/cfcloud_mall/libs/loglib/handler.py:352-358 | the frames of a publisher, each received as one message, decode to the sendable records in order, leaving the buffer empty |
| LogHandler.Listener.constructor | cfcloud_mall/cfcloud_mall/libs/loglib/handler.py:211-230 | a new listener is not running and its thread is not started |
| LogHandler.Listener.Start | cfcloud_mall/cfcloud_mall/libs/loglib/handler.py:254-263 | no-op while running; otherwise running is set and the thread started, with RuntimeError if it had been started before |
| LogHandler.Listener.Stop | cfcloud_mall/cfcloud_mall/libs/loglib/handler.py:265-277 | no-op when stopped; otherwise running is cleared |
| LogHandler.ProxyHandler.constructor | cfcloud_mall/cfcloud_mall/libs/loglib/handler.py:378-381 | the proxy keeps its id, level and publisher |
| LogHandler.ProxyHandler.Handle | cfcloud_mall/cfcloud_mall/libs/loglib/handler.py:411-423 | the record is stamped with the proxy id and emitted, prepared, by the publisher; the publisher's running flag, sender state and sent frames are unchanged |
| LogHandler.Transport.constructor | cfcloud_mall/cfcloud_mall/libs/loglib/handler.py:37-39 | the three registries start empty and distinct |
| LogHandler.Transport.GetPublisher | cfcloud_mall/cfcloud_mall/libs/loglib/handler.py:81-98 | returns the publisher registered under the address, with nothing changed, or registers and returns a new running one |
| LogHandler.Transport.GetListener | cfcloud_mall/cfcloud_mall/libs/loglib/handler.py:232-252 | returns the listener registered under the address, or registers and returns a new stopped one |
| LogHandler.Transport.GetPublisherTwice | cfcloud_mall/cfcloud_mall/libs/loglib/handler.py:81-98 | two lookups of the same host and port return the same object, and it is registered |
| LogHandler.Transport.NewProxy | cfcloud_mall/cfcloud_mall/libs/loglib/handler.py:378-383 | the proxy's publisher is the one already registered for its address, with the registry unchanged, or a new running publisher with a live sender and empty queue, registered under the address and nothing else; a non-empty handler list is installed only when the id has none (first wins); an empty one changes nothing |
| LogHandler.Transport.ResolveNames | cfcloud_mall/cfcloud_mall/libs/loglib/handler.py:400-407 | ValueError iff some name does not resolve; otherwise one resolved handler per distinct name, in the order the set was walked |
| LogHandler.Transport.GetProxy | cfcloud_mall/cfcloud_mall/libs/loglib/handler.py:385-409 | an unresolved name raises ValueError before anything changes; duplicate names collapse; the proxy gets exactly the resolved handlers, and its publisher is the registered one for the address or a new running one registered there, nothing else in the publisher registry changing |
| LogHandler.Transport.ProxiesShare | cfcloud_mall/cfcloud_mall/libs/loglib/handler.py:378-383 | two proxies built for one address are distinct objects that emit through the same registered publisher |
| LogHandler.Transport.Process | cfcloud_mall/cfcloud_mall/libs/loglib/handler.py:346-364 | one received message is decoded by the codec (body copied before deserializing) and each record routed by `_handle` against the proxy registry, in order |
| LogHandler.Transport.StopPublishers | cfcloud_mall/cfcloud_mall/libs/loglib/handler.py:458-459 | every registered publisher ends stopped, with a sentinel queued if it was running |
| LogHandler.Transport.StopListeners | cfcloud_mall/cfcloud_mall/libs/loglib/handler.py:460-461 | every registered listener ends stopped |
| LogHandler.Transport.Cleanup | cfcloud_mall/cfcloud_mall/libs/loglib/handler.py:454-461 | `cleanup` stops every registered publisher, then every registered listener |

## Left out

- Threads, locks, asyncio loops and queues, `TaskGroup`, pynng sockets and timeouts are not modelled, and neither are the event-loop bodies that run them (`_log_event_loop`, `_recv_event_loop`, `_listener`, `_recv_logs`). They are concurrency and I/O; every operation is modelled as one sequential step.
- JSON, pickle, `CommonJsonEncoder` and zlib are supplied as functions. Round trips are hypotheses (`RoundTrips`, `Inflates`), not facts about those libraries.
- Python `logging` internals are parameters or left out:
  - `format` is a function parameter;
  - `getHandlerByName` is a map;
  - a destination handler is its name and level, and whether it raises is the `fails` parameter.
  The `flush` and `close` methods of the proxy handler and `handleError` only call into those handlers.
- Error logging (`logger.error`, `logger.exception`) is not modelled; only the control flow around it is.
- The `except` around `unpack_from` (protocol.py lines 111-114) cannot be reached with 13 bytes buffered. It is the same path as a magic mismatch.
- LogHandler.Publisher.SendLogs: the draining of the queue while `stop` runs is not modelled. `task_done` runs before the send, and the `while self._running` test can end the loop before the sentinel is read, possibly leaving `queue.join()` waiting; both are thread races. A send that raises is not modelled; its frame counts as sent.
- LogHandler.Publisher.Stop and LogHandler.Listener.Stop: the blocking `join` calls are left out.
- LogHandler.Transport.GetPublisher and LogHandler.Transport.GetListener allocate the candidate endpoint before the lookup, because a Dafny function value cannot allocate. When an endpoint is already registered, the candidate is discarded. The source constructs, and starts a thread, only when the address is absent.
- LogHandler.Transport.ResolveNames: the iteration order of a `frozenset` is unspecified. It is an arbitrary choice, reported in `order`.
- LogHandler.ProxyHandler.Handle stamps the caller's record in place. The model returns the stamped record instead.
- LogHandler.Transport.Process takes the codec that `_process_logs` creates for its whole run as a parameter; the queue wait and its timeout are left out.
- The `__new__` guards that make `get_instance` the only way to build an endpoint are not modelled: Dafny constructors are public.
- Concurrent.ThreadSafeDict: a stored Python `None` is not modelled; a value is present or absent. `pop` without a default, `__getitem__`, `__iter__`, the `|` operators, `clear`, `popitem`, `keys`, `values`, `copy`, `fromkeys` and the string forms are left out; the transport does not use them, except `values()` in `cleanup`, modelled as the map's value set.
- Invariance of decoding under every way of splitting a stream into chunks is not proved in general. FrameInTwoChunks covers one frame split at any point.
- SendQueue.Frames: only KeyError and struct.error are modelled as encoding failures. Exceptions raised inside `json.dumps`, `pickle.dumps` or `zlib.compress` are not, because serialize and compress are total functions here.
- Codec.DecodeFrom: every negative declared length is treated as a corrupt header and resynchronises. For lengths -12 to -1 the source instead consumes an empty body and moves on to `body_end`, which lies inside the header (ShortNegativeLengthDiffers). For -13 and below the source stalls or moves backwards (see Findings).
- CodecProperties.BodyValueRoundTrip: stated for the decoder as written, so it requires a compressed frame or a serializer that accepts a `memoryview`; CopiedRoundTrip covers every serializer (see Findings).
- CodecProperties.FrameStep: stated for the decoder as written, so it requires a compressed frame or a serializer that accepts a `memoryview`; CopiedRoundTrip covers every serializer (see Findings).
- CodecProperties.DecodeOverFrame: stated for the decoder as written, so it requires a compressed frame or a serializer that accepts a `memoryview`; CopiedRoundTrip covers every serializer (see Findings).
- CodecProperties.RoundTrip: stated for the decoder as written, so it requires a compressed frame or a serializer that accepts a `memoryview`; CopiedRoundTrip covers every serializer (see Findings).
- CodecProperties.GarbageThenStep: stated for the decoder as written, so it requires a compressed frame or a serializer that accepts a `memoryview`; CopiedRoundTrip covers every serializer (see Findings).
- CodecProperties.GarbageThenFrame: stated for the decoder as written, so it requires a compressed frame or a serializer that accepts a `memoryview`; CopiedRoundTrip covers every serializer (see Findings).
- CodecProperties.InterleavedGarbage: stated for the decoder as written, so it requires a compressed frame or a serializer that accepts a `memoryview`; CopiedRoundTrip covers every serializer (see Findings).
- `start_pynng_logging_listener`, `signal_cleanup` and the `atexit` and `signal` registrations are left out. They are a start call and process hooks.

## Findings

| source | as written | input that shows it | evidently intended | confidence | as-written member | corrected member |
|---|---|---|---|---|---|---|
| cfcloud_mall/cfcloud_mall/libs/loglib/protocol.py:115-121 | the declared body length is signed and unchecked, so `current_offset = body_end` can move the offset backwards | a header with the magic and declared length -13 (bytes `1A 2B 3C 4D FF FF FF F3 00 00 00 00 00`): `body_end` equals the frame's own offset and the loop repeats forever | a negative length is a corrupt header, skipped like a bad magic; the corrected decoder resynchronises on every negative length, so it also differs from the source for -12 to -1 (CodecProperties.ShortNegativeLengthDiffers) | not executed | CodecProperties.NegativeLengthStalls | CodecProperties.NegativeLengthResyncs |
| cfcloud_mall/cfcloud_mall/libs/loglib/protocol.py:120-126 | the body is a `memoryview` slice of the buffer; an uncompressed body goes to the serializer as that view, and JSON's `deserialize` calls `.decode`, which a `memoryview` does not have, so the frame is logged and dropped | `encode(x, serialize_json, compress=False)` fed to `decode`: no record comes out, and the frame is consumed | the body is copied (`bytes(body)`) before deserializing, so every registered serializer reads back what it wrote | not executed | CodecProperties.ViewBodyDropped | CodecProperties.CopiedRoundTrip |
