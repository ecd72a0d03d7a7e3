/**
 * Properties of the wire codec: what decoding an encoded frame gives, how the decoder
 * resynchronises after garbage, what it keeps of an unfinished frame, and where it stops.
 */
module CodecProperties {
  import opened Wrappers
  import opened Bytes
  import opened Codec

  /** The bytes of a packed header parse back to that header. */
  lemma ParseHeaderBytes(buf: seq<byte>, off: nat, h: Header)
    requires Packable(h)
    requires off + HEADER_LEN <= |buf| && buf[off..off + HEADER_LEN] == HeaderBytes(h)
    ensures ParseHeader(buf, off) == Some(h)
  {
    var hb := HeaderBytes(h);
    var len, tag := Int32Bytes(h.dataLen), Int32Bytes(h.tag);
    assert hb == MAGIC + len + tag + [hb[12]];
    assert hb[4..8] == len && hb[8..12] == tag;
    assert forall i :: 0 <= i < HEADER_LEN ==> buf[off + i] == hb[i];
    assert buf[off + 4..off + 8] == hb[4..8];
    assert buf[off + 8..off + 12] == hb[8..12];
    Int32RoundTrip(h.dataLen);
    Int32RoundTrip(h.tag);
  }

  /** The header and body of an encoded frame. */
  lemma EncodeParts<T>(reg: Registry<T>, z: Zlib, data: T, tag: int, compress: bool, e: seq<byte>)
    requires Encode(reg, z, data, tag, compress) == Ok(e)
    ensures tag in reg
    ensures var h := Header(|e| - HEADER_LEN, tag, compress);
            && Packable(h) && e[..HEADER_LEN] == HeaderBytes(h)
            && e[HEADER_LEN..] == Payload(reg[tag], z, data, compress)
  {
  }

  /** A body written by a round-tripping serializer (and compressor) reads back. */
  lemma BodyValueRoundTrip<T(!new)>(reg: Registry<T>, z: Zlib, data: T, tag: int, compress: bool)
    requires tag in reg && RoundTrips(reg[tag]) && (compress ==> Inflates(z))
    requires compress || reg[tag].acceptsView
    ensures var body := Payload(reg[tag], z, data, compress);
            BodyValue(reg, z, Header(|body|, tag, compress), body) == Some(data)
  {
    var raw := reg[tag].serialize(data);
    assert reg[tag].deserialize(raw) == Some(data);
    if compress {
      assert z.decompress(z.compress(raw)) == Some(raw);
    }
  }

  /**
   * An encoded frame at offset `off` of any buffer is one step of the decoder: it yields
   * the record that was encoded and moves past the frame, whatever surrounds it.
   */
  lemma FrameStep<T(!new)>(reg: Registry<T>, z: Zlib, data: T, tag: int, compress: bool, e: seq<byte>, buf: seq<byte>, off: nat)
    requires Encode(reg, z, data, tag, compress) == Ok(e)
    requires tag in reg && RoundTrips(reg[tag]) && (compress ==> Inflates(z))
    requires compress || reg[tag].acceptsView
    requires off + |e| <= |buf| && buf[off..off + |e|] == e
    ensures StepAt(reg, z, buf, off) == Frame(off + |e|, Some(data))
  {
    EncodeParts(reg, z, data, tag, compress, e);
    var h := Header(|e| - HEADER_LEN, tag, compress);
    assert buf[off..off + HEADER_LEN] == e[..HEADER_LEN];
    ParseHeaderBytes(buf, off, h);
    assert buf[off + HEADER_LEN..off + |e|] == e[HEADER_LEN..];
    BodyValueRoundTrip(reg, z, data, tag, compress);
  }

  /** One unfolding of DecodeFrom at a step that takes a frame holding a record. */
  lemma DecodeFromRecord<T>(reg: Registry<T>, z: Zlib, buf: seq<byte>, off: nat, next: nat, x: T)
    requires off < next <= |buf| && StepAt(reg, z, buf, off) == Frame(next, Some(x))
    ensures DecodeFrom(reg, z, buf, off).records == [x] + DecodeFrom(reg, z, buf, next).records
    ensures DecodeFrom(reg, z, buf, off).offset == DecodeFrom(reg, z, buf, next).offset
  {
  }

  /** Decoding over an encoded frame at `off` yields its record first, then what follows it. */
  lemma {:induction false} DecodeOverFrame<T(!new)>(reg: Registry<T>, z: Zlib, data: T, tag: int, compress: bool, e: seq<byte>, buf: seq<byte>, off: nat)
    requires Encode(reg, z, data, tag, compress) == Ok(e)
    requires tag in reg && RoundTrips(reg[tag]) && (compress ==> Inflates(z))
    requires compress || reg[tag].acceptsView
    requires off + |e| <= |buf| && buf[off..off + |e|] == e
    ensures DecodeFrom(reg, z, buf, off).records == [data] + DecodeFrom(reg, z, buf, off + |e|).records
    ensures DecodeFrom(reg, z, buf, off).offset == DecodeFrom(reg, z, buf, off + |e|).offset
  {
    assert StepAt(reg, z, buf, off) == Frame(off + |e|, Some(data)) by {
      FrameStep(reg, z, data, tag, compress, e, buf, off);
    }
    DecodeFromRecord(reg, z, buf, off, off + |e|, data);
  }

  /** `decode(encode(x))` on a fresh buffer: exactly the one record, and nothing is kept. */
  lemma {:induction false} RoundTrip<T(!new)>(reg: Registry<T>, z: Zlib, data: T, tag: int, compress: bool, e: seq<byte>)
    requires Encode(reg, z, data, tag, compress) == Ok(e)
    requires tag in reg && RoundTrips(reg[tag]) && (compress ==> Inflates(z))
    requires compress || reg[tag].acceptsView
    ensures DecodeFrom(reg, z, e, 0) == Decoded([data], |e|)
  {
    assert e[0..|e|] == e;
    DecodeOverFrame(reg, z, data, tag, compress, e, e, 0);
    DecodeFromStop(reg, z, e, |e|);
  }

  /** Any proper prefix of an encoded frame decodes to nothing and is kept whole. */
  lemma PartialFrameKept<T>(reg: Registry<T>, z: Zlib, data: T, tag: int, compress: bool, e: seq<byte>, k: nat)
    requires Encode(reg, z, data, tag, compress) == Ok(e)
    requires k < |e|
    ensures DecodeFrom(reg, z, e[..k], 0) == Decoded([], 0)
  {
    var part := e[..k];
    if HEADER_LEN <= k {
      EncodeParts(reg, z, data, tag, compress, e);
      var h := Header(|e| - HEADER_LEN, tag, compress);
      assert part[0..HEADER_LEN] == e[..HEADER_LEN];
      ParseHeaderBytes(part, 0, h);
    }
    DecodeFromStop(reg, z, part, 0);
  }

  /** A frame whose tag has no serializer is one step of the decoder that yields nothing. */
  lemma UnknownTagStep<T>(reg: Registry<T>, z: Zlib, buf: seq<byte>, off: nat, h: Header)
    requires Packable(h) && h.dataLen >= 0 && h.tag !in reg
    requires off + HEADER_LEN + h.dataLen <= |buf| && buf[off..off + HEADER_LEN] == HeaderBytes(h)
    ensures StepAt(reg, z, buf, off) == Frame(off + HEADER_LEN + h.dataLen, None)
  {
    ParseHeaderBytes(buf, off, h);
  }

  /** A frame whose tag has no serializer is dropped and decoding goes on after its body. */
  lemma UnknownTagSkipped<T>(reg: Registry<T>, z: Zlib, buf: seq<byte>, off: nat, h: Header)
    requires Packable(h) && h.dataLen >= 0 && h.tag !in reg
    requires off + HEADER_LEN + h.dataLen <= |buf| && buf[off..off + HEADER_LEN] == HeaderBytes(h)
    ensures DecodeFrom(reg, z, buf, off) == DecodeFrom(reg, z, buf, off + HEADER_LEN + h.dataLen)
  {
    UnknownTagStep(reg, z, buf, off, h);
    var rest := DecodeFrom(reg, z, buf, off + HEADER_LEN + h.dataLen);
    assert DecodeFrom(reg, z, buf, off) == Decoded([] + rest.records, rest.offset);
    assert [] + rest.records == rest.records;
  }

  /** The search from `from` finds the magic at `n` when none starts in between. */
  lemma FindFirst(buf: seq<byte>, from: nat, n: nat)
    requires from <= n && MagicAt(buf, n)
    requires forall j :: from <= j < n ==> !MagicAt(buf, j)
    ensures Find(buf, from) == Some(n)
  {
  }

  /**
   * Bytes before the next magic are skipped: from any offset with a whole header's worth
   * of bytes, decoding goes on at the first magic, `n`, and nothing before it is kept.
   */
  lemma GarbageSkipped<T>(reg: Registry<T>, z: Zlib, buf: seq<byte>, off: nat, n: nat)
    requires off <= n && off + HEADER_LEN <= |buf| && MagicAt(buf, n)
    requires forall j :: off <= j < n ==> !MagicAt(buf, j)
    ensures DecodeFrom(reg, z, buf, off) == DecodeFrom(reg, z, buf, n)
  {
    if off < n {
      FindFirst(buf, off + 1, n);
      DecodeFromSkip(reg, z, buf, off);
    }
  }

  /**
   * The magic number has no proper suffix that is also its prefix, so a magic cannot start
   * inside garbage `g` that holds none and end in `rest`, which starts with one.
   */
  lemma NoMagicAcross(g: seq<byte>, rest: seq<byte>)
    requires forall i :: 0 <= i < |g| ==> !MagicAt(g, i)
    requires MagicAt(rest, 0)
    ensures forall j :: 0 <= j < |g| ==> !MagicAt(g + rest, j)
  {
    var buf := g + rest;
    forall j | 0 <= j < |g|
      ensures !MagicAt(buf, j)
    {
      if j + MAGIC_LEN <= |g| {
        assert !MagicAt(g, j);
        assert buf[j..j + MAGIC_LEN] == g[j..j + MAGIC_LEN];
      } else {
        assert buf[|g|] == 0x1A;
      }
    }
  }

  /** The decoder waits exactly at a residue: too few bytes, or a good header without its body. */
  lemma StepWaitIsResidue<T>(reg: Registry<T>, z: Zlib, buf: seq<byte>, off: nat)
    requires off <= |buf|
    ensures StepAt(reg, z, buf, off).Wait? <==> IsResidue(buf, off)
  {
  }

  /**
   * Where decoding stops is a residue: the bytes kept for the next chunk are too short for
   * a header, or begin with a good header whose body is not complete.
   */
  lemma {:induction false} DecodeStopsAtResidue<T>(reg: Registry<T>, z: Zlib, buf: seq<byte>, off: nat)
    requires off <= |buf|
    decreases |buf| - off
    ensures IsResidue(buf, DecodeFrom(reg, z, buf, off).offset)
  {
    StepWaitIsResidue(reg, z, buf, off);
    match StepAt(reg, z, buf, off)
    case Wait =>
    case Resync(next) => DecodeStopsAtResidue(reg, z, buf, next);
    case Frame(next, _) => DecodeStopsAtResidue(reg, z, buf, next);
  }

  /** The byte-by-byte magic test is the comparison of the four bytes with the magic number. */
  lemma MagicAtSlice(buf: seq<byte>, i: nat)
    ensures MagicAt(buf, i) <==> i + MAGIC_LEN <= |buf| && buf[i..i + MAGIC_LEN] == MAGIC
  {
    if i + MAGIC_LEN <= |buf| && buf[i..i + MAGIC_LEN] == MAGIC {
      assert buf[i..i + MAGIC_LEN][3] == buf[i + 3];
    }
  }

  /** The magic test reads the same through a window `w` of the buffer starting at `a`. */
  lemma MagicAtWindow(buf: seq<byte>, a: nat, w: seq<byte>, j: nat)
    requires a + |w| <= |buf| && buf[a..a + |w|] == w
    requires a <= j && j + MAGIC_LEN <= a + |w|
    ensures MagicAt(buf, j) == MagicAt(w, j - a)
  {
    assert forall i :: 0 <= i < |w| ==> buf[a + i] == w[i];
  }

  /**
   * Where garbage holding no magic and then an encoded frame sit in a buffer, from `a` to
   * `c`, the first magic is the frame's, at `b`, and the decoder takes the frame there.
   */
  lemma GarbageThenStep<T(!new)>(reg: Registry<T>, z: Zlib, data: T, tag: int, compress: bool,
                                 g: seq<byte>, e: seq<byte>, buf: seq<byte>, a: nat, b: nat, c: nat)
    requires Encode(reg, z, data, tag, compress) == Ok(e)
    requires tag in reg && RoundTrips(reg[tag]) && (compress ==> Inflates(z))
    requires compress || reg[tag].acceptsView
    requires forall i :: 0 <= i < |g| ==> !MagicAt(g, i)
    requires b == a + |g| && c == b + |e| && c <= |buf| && buf[a..c] == g + e
    ensures a + HEADER_LEN <= |buf| && b < c && MagicAt(buf, b)
    ensures forall j :: a <= j < b ==> !MagicAt(buf, j)
    ensures StepAt(reg, z, buf, b) == Frame(c, Some(data))
  {
    EncodeParts(reg, z, data, tag, compress, e);
    var w := g + e;
    assert MagicAt(w, |g|) by { assert w[|g|..] == e; }
    NoMagicAcross(g, e);
    forall j | a <= j < b
      ensures !MagicAt(buf, j)
    {
      MagicAtWindow(buf, a, w, j);
    }
    MagicAtWindow(buf, a, w, b);
    assert buf[b..c] == w[|g|..] == e;
    FrameStep(reg, z, data, tag, compress, e, buf, b);
  }

  /**
   * Garbage holding no magic followed by an encoded frame, from `a` to `c` in a buffer:
   * the garbage is skipped and the frame's record comes out.
   */
  lemma {:induction false} GarbageThenFrame<T(!new)>(reg: Registry<T>, z: Zlib, data: T, tag: int, compress: bool,
                                                     g: seq<byte>, e: seq<byte>, buf: seq<byte>, a: nat, c: nat)
    requires Encode(reg, z, data, tag, compress) == Ok(e)
    requires tag in reg && RoundTrips(reg[tag]) && (compress ==> Inflates(z))
    requires compress || reg[tag].acceptsView
    requires forall i :: 0 <= i < |g| ==> !MagicAt(g, i)
    requires c == a + |g| + |e| && c <= |buf| && buf[a..c] == g + e
    ensures DecodeFrom(reg, z, buf, a).records == [data] + DecodeFrom(reg, z, buf, c).records
    ensures DecodeFrom(reg, z, buf, a).offset == DecodeFrom(reg, z, buf, c).offset
  {
    var b := a + |g|;
    GarbageThenStep(reg, z, data, tag, compress, g, e, buf, a, b, c);
    GarbageSkipped(reg, z, buf, a, b);
    DecodeFromRecord(reg, z, buf, b, c, data);
  }

  /** Both halves of a concatenation, as slices. */
  lemma Halves(a: seq<byte>, b: seq<byte>)
    ensures (a + b)[0..|a|] == a && (a + b)[|a|..|a| + |b|] == b
  {
  }

  /**
   * Garbage, a frame, more garbage and a second frame, all in one chunk: both records, in
   * order, and the whole buffer is consumed.
   */
  lemma InterleavedGarbage<T(!new)>(reg: Registry<T>, z: Zlib, g1: seq<byte>, e1: seq<byte>, g2: seq<byte>, e2: seq<byte>,
                                    x1: T, tag1: int, c1: bool, x2: T, tag2: int, c2: bool)
    requires Encode(reg, z, x1, tag1, c1) == Ok(e1) && tag1 in reg && RoundTrips(reg[tag1]) && (c1 ==> Inflates(z))
    requires Encode(reg, z, x2, tag2, c2) == Ok(e2) && tag2 in reg && RoundTrips(reg[tag2]) && (c2 ==> Inflates(z))
    requires (c1 || reg[tag1].acceptsView) && (c2 || reg[tag2].acceptsView)
    requires forall i :: 0 <= i < |g1| ==> !MagicAt(g1, i)
    requires forall i :: 0 <= i < |g2| ==> !MagicAt(g2, i)
    ensures var buf := g1 + e1 + g2 + e2;
            DecodeFrom(reg, z, buf, 0) == Decoded([x1, x2], |buf|)
  {
    var first, second := g1 + e1, g2 + e2;
    var buf := first + second;
    var mid, end := |first|, |buf|;
    Halves(first, second);
    assert buf == g1 + e1 + g2 + e2;
    GarbageThenFrame(reg, z, x1, tag1, c1, g1, e1, buf, 0, mid);
    GarbageThenFrame(reg, z, x2, tag2, c2, g2, e2, buf, mid, end);
    DecodeFromStop(reg, z, buf, end);
    assert [x1] + ([x2] + []) == [x1, x2];
  }

  /**
   * As written, a header declaring length -13 sets the next offset back to the frame's own
   * start, and the loop condition still holds there, so the loop never ends.
   */
  lemma NegativeLengthStalls()
    ensures var h := Header(-13, SERIALIZE_JSON, false);
            var buf := HeaderBytes(h);
            && ParseHeader(buf, 0) == Some(h)
            && AsWrittenNext(buf, 0) == 0
            && |buf| >= AsWrittenNext(buf, 0) + HEADER_LEN
  {
    var h := Header(-13, SERIALIZE_JSON, false);
    var buf := HeaderBytes(h);
    assert buf[0..HEADER_LEN] == buf;
    ParseHeaderBytes(buf, 0, h);
  }

  /**
   * The corrected decoder treats that header like a bad magic: it resynchronises to the
   * last three bytes and waits there for more input.
   */
  lemma NegativeLengthResyncs<T>(reg: Registry<T>, z: Zlib)
    ensures DecodeFrom(reg, z, HeaderBytes(Header(-13, SERIALIZE_JSON, false)), 0) == Decoded([], HEADER_LEN - 3)
  {
    var h := Header(-13, SERIALIZE_JSON, false);
    var buf := HeaderBytes(h);
    assert buf[0..HEADER_LEN] == buf;
    ParseHeaderBytes(buf, 0, h);
    assert buf[4..] == Int32Bytes(-13) + Int32Bytes(SERIALIZE_JSON) + [0];
    assert buf[4] == 0xFF && buf[5] == 0xFF && buf[6] == 0xFF && buf[7] == 0xF3;
    assert buf[8] == 0 && buf[9] == 0;
    assert Find(buf, 1).None?;
    DecodeFromSkip(reg, z, buf, 0);
    DecodeFromStop(reg, z, buf, HEADER_LEN - 3);
  }

  /**
   * Where the corrected decoder departs from the source on a length above -13: as written,
   * a header declaring -1 puts `body_end` at 12, so the source drops an empty body and keeps
   * the last byte; the corrected decoder resynchronises instead and keeps the last three.
   */
  lemma ShortNegativeLengthDiffers<T>(reg: Registry<T>, z: Zlib)
    ensures var buf := HeaderBytes(Header(-1, SERIALIZE_JSON, false));
            && AsWrittenNext(buf, 0) == HEADER_LEN - 1
            && DecodeFrom(reg, z, buf, 0) == Decoded([], HEADER_LEN - 3)
  {
    var h := Header(-1, SERIALIZE_JSON, false);
    var buf := HeaderBytes(h);
    assert buf[0..HEADER_LEN] == buf;
    ParseHeaderBytes(buf, 0, h);
    assert buf[4..] == Int32Bytes(-1) + Int32Bytes(SERIALIZE_JSON) + [0];
    assert buf[4] == 0xFF && buf[5] == 0xFF && buf[6] == 0xFF && buf[7] == 0xFF;
    assert buf[8] == 0 && buf[9] == 0;
    assert Find(buf, 1).None?;
    DecodeFromSkip(reg, z, buf, 0);
    DecodeFromStop(reg, z, buf, HEADER_LEN - 3);
  }

  /**
   * As written, an uncompressed frame whose serializer does not accept a memoryview (JSON's)
   * is consumed and dropped: `decode(encode(x, serialize_json, False))` yields nothing.
   */
  lemma ViewBodyDropped<T>(reg: Registry<T>, z: Zlib, data: T, tag: int, e: seq<byte>)
    requires Encode(reg, z, data, tag, false) == Ok(e)
    requires tag in reg && !reg[tag].acceptsView
    ensures DecodeFrom(reg, z, e, 0) == Decoded([], |e|)
  {
    EncodeParts(reg, z, data, tag, false, e);
    var h := Header(|e| - HEADER_LEN, tag, false);
    assert e[0..HEADER_LEN] == e[..HEADER_LEN];
    ParseHeaderBytes(e, 0, h);
    DecodeFromFrame(reg, z, e, 0, h, |e|, None);
    DecodeFromStop(reg, z, e, |e|);
  }

  /** Copying the body before deserializing leaves encoding as it was. */
  lemma CopyingEncodes<T>(reg: Registry<T>, z: Zlib, data: T, tag: int, compress: bool)
    ensures Encode(Copying(reg), z, data, tag, compress) == Encode(reg, z, data, tag, compress)
  {
    if tag in reg {
      assert Copying(reg)[tag].serialize == reg[tag].serialize;
    }
  }

  /**
   * With the body copied before deserializing, `decode(encode(x))` gives the record back
   * for every registered serializer, compressed or not.
   */
  lemma {:induction false} CopiedRoundTrip<T(!new)>(reg: Registry<T>, z: Zlib, data: T, tag: int, compress: bool, e: seq<byte>)
    requires Encode(reg, z, data, tag, compress) == Ok(e)
    requires tag in reg && RoundTrips(reg[tag]) && (compress ==> Inflates(z))
    ensures DecodeFrom(Copying(reg), z, e, 0) == Decoded([data], |e|)
  {
    var c := Copying(reg);
    CopyingEncodes(reg, z, data, tag, compress);
    assert c[tag].serialize == reg[tag].serialize && c[tag].deserialize == reg[tag].deserialize;
    RoundTrip(c, z, data, tag, compress, e);
  }

  /**
   * A frame that arrives in two chunks: the first call yields nothing, the second yields
   * the record, and the decoder's buffer is empty again.
   */
  method FrameInTwoChunks<T(!new)>(reg: Registry<T>, z: Zlib, data: T, tag: int, compress: bool, k: nat)
    returns (first: seq<T>, second: seq<T>, left: seq<byte>)
    requires tag in reg && RoundTrips(reg[tag]) && (compress ==> Inflates(z))
    requires Encode(reg, z, data, tag, compress).Ok? && k < |Encode(reg, z, data, tag, compress).value|
    ensures first == [] && second == [data] && left == []
  {
    var e := Encode(reg, z, data, tag, compress).value;
    var codec := new ProtocolCodec(reg, z);
    first := codec.Decode(e[..k]);
    CopyingEncodes(reg, z, data, tag, compress);
    PartialFrameKept(Copying(reg), z, data, tag, compress, e, k);
    assert [] + e[..k] == e[..k];
    assert codec.buffer == e[..k];
    second := codec.Decode(e[k..]);
    assert e[..k] + e[k..] == e;
    CopiedRoundTrip(reg, z, data, tag, compress, e);
    left := codec.buffer;
  }
}
