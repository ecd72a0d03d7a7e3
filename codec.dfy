/**
 * The wire codec of the log transport: a frame is a 13-byte header (struct format "!4s2i?":
 * magic, signed big-endian body length, signed big-endian serializer tag, compress flag)
 * followed by the body. Encoding is a function; decoding is an incremental decoder object
 * that keeps the bytes of an unfinished frame for the next chunk.
 */
module Codec {
  import opened Wrappers
  import opened Bytes

  const MAGIC: seq<byte> := [0x1A, 0x2B, 0x3C, 0x4D]
  const MAGIC_LEN: nat := 4
  const HEADER_LEN: nat := 13

  /** Serializer tags registered at import time. */
  const SERIALIZE_JSON: int := 0
  const SERIALIZE_PICKLE: int := 1

  /**
   * A serializer: `deserialize` yields None where the Python serializer raises.
   * JSON and pickle themselves are not modelled; they are whatever pair is supplied.
   * `acceptsView` says whether `deserialize` also takes the memoryview slice the decoder
   * hands over for an uncompressed body: pickle's `loads` does, while JSON's `deserialize`
   * calls `bytes.decode`, which a memoryview does not have.
   */
  datatype Serializer<!T> = Serializer(serialize: T -> seq<byte>, deserialize: seq<byte> -> Option<T>, acceptsView: bool)

  /** `JsonSerializer`: its `deserialize` fails on a memoryview. */
  function JsonSerializer<T>(serialize: T -> seq<byte>, deserialize: seq<byte> -> Option<T>): (s: Serializer<T>)
    ensures !s.acceptsView && s.serialize == serialize && s.deserialize == deserialize
  {
    Serializer(serialize, deserialize, false)
  }

  /** `PickleSerializer`: `pickle.loads` takes any bytes-like object. */
  function PickleSerializer<T>(serialize: T -> seq<byte>, deserialize: seq<byte> -> Option<T>): (s: Serializer<T>)
    ensures s.acceptsView && s.serialize == serialize && s.deserialize == deserialize
  {
    Serializer(serialize, deserialize, true)
  }

  /** zlib.compress / zlib.decompress; `decompress` yields None where zlib raises. */
  datatype Zlib = Zlib(compress: seq<byte> -> seq<byte>, decompress: seq<byte> -> Option<seq<byte>>)

  /** The module-level `_serializers` dictionary. */
  type Registry<!T> = map<int, Serializer<T>>

  /** Deserializing what was serialized gives the value back. */
  ghost predicate RoundTrips<T(!new)>(s: Serializer<T>) {
    forall x :: s.deserialize(s.serialize(x)) == Some(x)
  }

  /** Decompressing what was compressed gives the bytes back. */
  ghost predicate Inflates(z: Zlib) {
    forall b :: z.decompress(z.compress(b)) == Some(b)
  }

  /** The decoded fields of a header. */
  datatype Header = Header(dataLen: int, tag: int, compressed: bool)

  /** A header whose integer fields struct.pack accepts. */
  predicate Packable(h: Header) {
    IsInt32(h.dataLen) && IsInt32(h.tag)
  }

  /** struct.pack("!4s2i?", MAGIC, dataLen, tag, compressed). */
  function HeaderBytes(h: Header): (b: seq<byte>)
    requires Packable(h)
    ensures |b| == HEADER_LEN
  {
    MAGIC + Int32Bytes(h.dataLen) + Int32Bytes(h.tag) + [if h.compressed then 1 else 0]
  }

  /** The four bytes at `i` are the magic number. */
  predicate MagicAt(buf: seq<byte>, i: nat) {
    i + MAGIC_LEN <= |buf| && buf[i] == 0x1A && buf[i + 1] == 0x2B && buf[i + 2] == 0x3C && buf[i + 3] == 0x4D
  }

  /**
   * struct.unpack_from at `off` followed by the magic check: None when the magic does not
   * match. The '?' field is true for any non-zero byte.
   */
  function ParseHeader(buf: seq<byte>, off: nat): (r: Option<Header>)
    requires off + HEADER_LEN <= |buf|
    ensures r.Some? <==> MagicAt(buf, off)
  {
    if !MagicAt(buf, off) then None
    else Some(Header(Int32Of(buf[off + 4..off + 8]), Int32Of(buf[off + 8..off + 12]), buf[off + 12] != 0))
  }

  /** bytearray.find(MAGIC, from): the first occurrence of the magic at or after `from`. */
  function Find(buf: seq<byte>, from: nat): (r: Option<nat>)
    decreases |buf| - from
    ensures r.Some? ==> from <= r.value && MagicAt(buf, r.value)
    ensures r.Some? ==> forall j :: from <= j < r.value ==> !MagicAt(buf, j)
    ensures r.None? ==> forall j :: from <= j ==> !MagicAt(buf, j)
  {
    if from + MAGIC_LEN > |buf| then None
    else if MagicAt(buf, from) then Some(from)
    else Find(buf, from + 1)
  }

  /**
   * `_find_next_header_index`: the next magic strictly after `off`, or else the buffer length
   * minus three, so that a magic split across a chunk boundary is kept. Python returns None
   * (falls off the end) when the buffer is not longer than `off + 4`.
   */
  function FindNextHeader(buf: seq<byte>, off: nat): (r: Option<nat>)
    ensures r.Some? <==> |buf| > MAGIC_LEN + off
    ensures r.Some? ==> off < r.value <= |buf|
    ensures r.Some? ==> forall j :: off < j < r.value ==> !MagicAt(buf, j)
    ensures r.Some? ==> MagicAt(buf, r.value) || r.value == |buf| - MAGIC_LEN + 1
  {
    if |buf| > MAGIC_LEN + off then
      match Find(buf, off + 1)
      case Some(i) => Some(i)
      case None => Some(|buf| - MAGIC_LEN + 1)
    else None
  }

  /** The body `encode` writes: the serialized value, compressed when asked. */
  function Payload<T>(s: Serializer<T>, z: Zlib, data: T, compress: bool): (p: seq<byte>)
    ensures Inflates(z) ==> (if compress then z.decompress(p) else Some(p)) == Some(s.serialize(data))
  {
    var body := s.serialize(data);
    if compress then z.compress(body) else body
  }

  /**
   * `ProtocolCodec.encode`: KeyError for an unregistered tag; struct.error when the body is
   * longer than an int32 can say (or the tag does not fit); otherwise header + body.
   */
  function Encode<T>(reg: Registry<T>, z: Zlib, data: T, tag: int, compress: bool): (r: Result<seq<byte>>)
    ensures tag !in reg ==> r == Err(KeyError)
    ensures tag in reg ==> (r.Ok? <==> IsInt32(tag) && IsInt32(|Payload(reg[tag], z, data, compress)|))
    ensures r.Ok? ==>
      var body := Payload(reg[tag], z, data, compress);
      && |r.value| == HEADER_LEN + |body|
      && r.value[..HEADER_LEN] == HeaderBytes(Header(|body|, tag, compress))
      && r.value[HEADER_LEN..] == body
  {
    if tag !in reg then Err(KeyError)
    else
      var body := Payload(reg[tag], z, data, compress);
      var h := Header(|body|, tag, compress);
      if !Packable(h) then Err(StructError)
      else Ok(HeaderBytes(h) + body)
  }

  /**
   * The record in a complete frame's body, or None where the source logs and drops the
   * frame: zlib fails, the tag has no serializer, or the serializer fails, which JSON's
   * always does on an uncompressed body, since that reaches it as a memoryview.
   */
  function BodyValue<T>(reg: Registry<T>, z: Zlib, h: Header, body: seq<byte>): (r: Option<T>)
    ensures h.tag !in reg ==> r == None
    ensures h.compressed && z.decompress(body).None? ==> r == None
    ensures h.tag in reg && !h.compressed && !reg[h.tag].acceptsView ==> r == None
    ensures r.Some? ==> h.tag in reg && (h.compressed || reg[h.tag].acceptsView)
  {
    if h.tag !in reg then None
    else if h.compressed then
      match z.decompress(body)
      case None => None
      case Some(raw) => reg[h.tag].deserialize(raw)
    else if reg[h.tag].acceptsView then reg[h.tag].deserialize(body)
    else None
  }

  /**
   * The corrected body read: the body is copied out of the memoryview (`bytes(body)`)
   * before it is deserialized, which is the same as every serializer accepting a view.
   */
  function Copying<T>(reg: Registry<T>): (r: Registry<T>)
    ensures r.Keys == reg.Keys
    ensures forall t :: t in r ==> r[t] == reg[t].(acceptsView := true)
  {
    map t | t in reg :: reg[t].(acceptsView := true)
  }

  /** The records a frame contributes: its value, or nothing when its body failed. */
  function Kept<T>(value: Option<T>): (r: seq<T>)
    ensures |r| <= 1
  {
    if value.Some? then [value.value] else []
  }

  /** What one pass of the decode loop leaves: the records and the final offset. */
  datatype Decoded<T> = Decoded(records: seq<T>, offset: nat)

  /**
   * The header at `off` carries the magic and a length the corrected decoder accepts: a
   * negative length is treated as corruption and resynchronised on (see the findings).
   */
  predicate GoodHeaderAt(buf: seq<byte>, off: nat)
    requires off + HEADER_LEN <= |buf|
  {
    ParseHeader(buf, off).Some? && ParseHeader(buf, off).value.dataLen >= 0
  }

  /**
   * What the decoder keeps between calls: fewer than 13 bytes, or a good header whose
   * body has not all arrived.
   */
  predicate IsResidue(buf: seq<byte>, off: nat)
    requires off <= |buf|
  {
    |buf| < off + HEADER_LEN
    || (GoodHeaderAt(buf, off) && |buf| < off + HEADER_LEN + ParseHeader(buf, off).value.dataLen)
  }

  /** One iteration of the decode loop: wait for more bytes, resynchronise, or take a frame. */
  datatype Step<T> = Wait | Resync(next: nat) | Frame(next: nat, value: Option<T>)

  /**
   * The iteration of `_decode_buffered` at offset `off`: wait when fewer than 13 bytes or
   * less than a whole frame remain, skip to the next magic on a bad header, and otherwise
   * consume the frame, whose body yields a record or None.
   */
  function StepAt<T>(reg: Registry<T>, z: Zlib, buf: seq<byte>, off: nat): (s: Step<T>)
    requires off <= |buf|
    ensures !s.Wait? ==> off < s.next <= |buf|
  {
    if |buf| < off + HEADER_LEN then Wait
    else if !GoodHeaderAt(buf, off) then Resync(FindNextHeader(buf, off).value)
    else
      var h := ParseHeader(buf, off).value;
      var bodyEnd := off + HEADER_LEN + h.dataLen;
      if |buf| < bodyEnd then Wait
      else Frame(bodyEnd, BodyValue(reg, z, h, buf[off + HEADER_LEN..bodyEnd]))
  }

  /**
   * The whole decode loop from offset `off`: the records of the frames it consumes, in
   * order, and the offset where it stops.
   */
  function DecodeFrom<T>(reg: Registry<T>, z: Zlib, buf: seq<byte>, off: nat): (d: Decoded<T>)
    requires off <= |buf|
    decreases |buf| - off
    ensures off <= d.offset <= |buf|
  {
    match StepAt(reg, z, buf, off)
    case Wait => Decoded([], off)
    case Resync(next) => DecodeFrom(reg, z, buf, next)
    case Frame(next, value) =>
      var rest := DecodeFrom(reg, z, buf, next);
      Decoded(Kept(value) + rest.records, rest.offset)
  }

  /** DecodeFrom stops at an unfinished frame (a helper for the proofs). */
  lemma DecodeFromStop<T>(reg: Registry<T>, z: Zlib, buf: seq<byte>, off: nat)
    requires off <= |buf|
    requires |buf| < off + HEADER_LEN
             || (GoodHeaderAt(buf, off) && |buf| < off + HEADER_LEN + ParseHeader(buf, off).value.dataLen)
    ensures DecodeFrom(reg, z, buf, off) == Decoded([], off)
  {
  }

  /** One unfolding of DecodeFrom at a bad header (a helper for the decode loop). */
  lemma DecodeFromSkip<T>(reg: Registry<T>, z: Zlib, buf: seq<byte>, off: nat)
    requires off + HEADER_LEN <= |buf| && !GoodHeaderAt(buf, off)
    ensures DecodeFrom(reg, z, buf, off) == DecodeFrom(reg, z, buf, FindNextHeader(buf, off).value)
  {
  }

  /** One unfolding of DecodeFrom at a complete frame (a helper for the decode loop). */
  lemma DecodeFromFrame<T>(reg: Registry<T>, z: Zlib, buf: seq<byte>, off: nat, h: Header, bodyEnd: nat, value: Option<T>)
    requires off + HEADER_LEN <= |buf| && ParseHeader(buf, off) == Some(h) && h.dataLen >= 0
    requires bodyEnd == off + HEADER_LEN + h.dataLen <= |buf|
    requires value == BodyValue(reg, z, h, buf[off + HEADER_LEN..bodyEnd])
    ensures DecodeFrom(reg, z, buf, off).records == Kept(value) + DecodeFrom(reg, z, buf, bodyEnd).records
    ensures DecodeFrom(reg, z, buf, off).offset == DecodeFrom(reg, z, buf, bodyEnd).offset
  {
    assert GoodHeaderAt(buf, off);
    assert StepAt(reg, z, buf, off) == Frame(bodyEnd, value);
  }

  /** The source's offset after a frame, `body_end`, with no check on the sign of the length. */
  function AsWrittenNext(buf: seq<byte>, off: nat): (n: int)
    requires off + HEADER_LEN <= |buf| && MagicAt(buf, off)
    ensures n - off - HEADER_LEN == ParseHeader(buf, off).value.dataLen
  {
    off + HEADER_LEN + ParseHeader(buf, off).value.dataLen
  }

  /**
   * The serializer table filled by the `register_serializer` decorator.
   */
  class SerializerRegistry<T> {
    var serializers: Registry<T>

    constructor ()
      ensures serializers == map[]
    {
      serializers := map[];
    }

    /** Binding a tag twice raises KeyError and keeps the first binding. */
    method Register(tag: int, s: Serializer<T>) returns (r: Result<()>)
      modifies this
      ensures tag in old(serializers) ==> r == Err(KeyError) && serializers == old(serializers)
      ensures tag !in old(serializers) ==> r == Ok(()) && serializers == old(serializers)[tag := s]
    {
      if tag in serializers {
        return Err(KeyError);
      }
      serializers := serializers[tag := s];
      return Ok(());
    }
  }

  /**
   * The two registrations done when the protocol module is imported, given the JSON and
   * pickle functions (`dumps`/`loads`).
   */
  method StandardRegistry<T>(jsonDumps: T -> seq<byte>, jsonLoads: seq<byte> -> Option<T>,
                             pickleDumps: T -> seq<byte>, pickleLoads: seq<byte> -> Option<T>)
    returns (reg: SerializerRegistry<T>)
    ensures fresh(reg)
    ensures reg.serializers == map[SERIALIZE_JSON := JsonSerializer(jsonDumps, jsonLoads),
                                   SERIALIZE_PICKLE := PickleSerializer(pickleDumps, pickleLoads)]
  {
    reg := new SerializerRegistry();
    var r := reg.Register(SERIALIZE_JSON, JsonSerializer(jsonDumps, jsonLoads));
    r := reg.Register(SERIALIZE_PICKLE, PickleSerializer(pickleDumps, pickleLoads));
  }

  /**
   * `ProtocolCodec`: one decode buffer per instance. It decodes with the corrected body
   * read, `Copying(serializers)`, and the corrected length rule (see the findings).
   */
  class ProtocolCodec<T> {
    const serializers: Registry<T>
    const zlib: Zlib
    var buffer: seq<byte>

    constructor (reg: Registry<T>, z: Zlib)
      ensures serializers == reg && zlib == z && buffer == []
    {
      serializers, zlib := reg, z;
      buffer := [];
    }

    /** Append the chunk and decode every complete frame. */
    method Decode(chunk: seq<byte>) returns (results: seq<T>)
      modifies this
      ensures var d := DecodeFrom(Copying(serializers), zlib, old(buffer) + chunk, 0);
              results == d.records && buffer == (old(buffer) + chunk)[d.offset..]
    {
      buffer := buffer + chunk;
      results := DecodeBuffered();
    }

    /** `_decode_buffered`: walk an offset through the buffer, then drop the consumed prefix. */
    method DecodeBuffered() returns (results: seq<T>)
      modifies this
      ensures var d := DecodeFrom(Copying(serializers), zlib, old(buffer), 0);
              results == d.records && buffer == old(buffer)[d.offset..]
    {
      var off;
      results, off := DecodeLoop(Copying(serializers), zlib, buffer);
      buffer := buffer[off..];
    }
  }

  /** Concatenation is associative (a helper for the decode loop). */
  lemma AppendAssoc<T>(a: seq<T>, b: seq<T>, c: seq<T>)
    ensures (a + b) + c == a + (b + c)
  {
  }

  /**
   * The while loop of `_decode_buffered`: the records of the whole frames in `buf`, in
   * order, and the offset of the first byte it leaves unconsumed.
   */
  method DecodeLoop<T>(reg: Registry<T>, z: Zlib, buf: seq<byte>) returns (results: seq<T>, off: nat)
    ensures DecodeFrom(reg, z, buf, 0) == Decoded(results, off)
  {
    results := [];
    off := 0;
    ghost var total := DecodeFrom(reg, z, buf, 0);
    while |buf| >= off + HEADER_LEN
      invariant off <= |buf| && DecodeFrom(reg, z, buf, off).offset == total.offset
      invariant results + DecodeFrom(reg, z, buf, off).records == total.records
      decreases |buf| - off
    {
      var header := ParseHeader(buf, off);
      if header.None? || header.value.dataLen < 0 {
        DecodeFromSkip(reg, z, buf, off);
        off := FindNextHeader(buf, off).value;
        continue;
      }
      var h := header.value;
      var bodyEnd: nat := off + HEADER_LEN + h.dataLen;
      if |buf| < bodyEnd {
        break;
      }
      var body := buf[off + HEADER_LEN..bodyEnd];
      var value := BodyValue(reg, z, h, body);
      DecodeFromFrame(reg, z, buf, off, h, bodyEnd, value);
      AppendAssoc(results, Kept(value), DecodeFrom(reg, z, buf, bodyEnd).records);
      off := bodyEnd;
      results := results + Kept(value);
    }
  }
}
