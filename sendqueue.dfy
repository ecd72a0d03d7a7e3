/**
 * The publisher's queue and what its sender puts on the socket: records in FIFO order up to
 * the stop sentinel, each sent as a JSON, compressed frame.
 */
module SendQueue {
  import opened Wrappers
  import opened Bytes
  import opened Codec
  import opened CodecProperties
  import opened LogRecords

  /** An entry of the publisher's queue: a prepared record, or the stop sentinel. */
  datatype Item = Msg(rec: Record) | Sentinel

  /** The queue entries for a run of records. */
  function Msgs(rs: seq<Record>): (q: seq<Item>)
    ensures |q| == |rs| && Sentinel !in q
    ensures forall i :: 0 <= i < |rs| ==> q[i] == Msg(rs[i])
  {
    if rs == [] then [] else [Msg(rs[0])] + Msgs(rs[1..])
  }

  /** The records the sender takes before it meets the sentinel (all of them if there is none). */
  function Pending(q: seq<Item>): (rs: seq<Record>)
    ensures |rs| <= |q|
  {
    if q == [] || q[0].Sentinel? then [] else [q[0].rec] + Pending(q[1..])
  }

  /** What is left in the queue once the sender has taken the sentinel ([] if there is none). */
  function AfterSentinel(q: seq<Item>): (rest: seq<Item>)
    ensures |rest| < |q| || rest == []
  {
    if q == [] then [] else if q[0].Sentinel? then q[1..] else AfterSentinel(q[1..])
  }

  /** The queue splits at its first sentinel into the pending records, the sentinel and the rest. */
  lemma {:induction false} QueueSplit(q: seq<Item>)
    ensures Sentinel in q ==> q == Msgs(Pending(q)) + [Sentinel] + AfterSentinel(q)
    ensures Sentinel !in q ==> q == Msgs(Pending(q)) && AfterSentinel(q) == []
  {
    if q != [] && q[0].Msg? {
      QueueSplit(q[1..]);
      assert q == [q[0]] + q[1..];
      assert Sentinel in q <==> Sentinel in q[1..];
    }
  }

  /**
   * What `stop` guarantees the sender: every record queued before the sentinel is taken,
   * in the order emitted, and whatever was queued after it is left.
   */
  lemma {:induction false} StopAfterEmits(rs: seq<Record>, later: seq<Item>)
    ensures Pending(Msgs(rs) + [Sentinel] + later) == rs
    ensures AfterSentinel(Msgs(rs) + [Sentinel] + later) == later
  {
    var q := Msgs(rs) + [Sentinel] + later;
    if rs == [] {
      assert q == [Sentinel] + later;
    } else {
      StopAfterEmits(rs[1..], later);
      assert q[1..] == Msgs(rs[1..]) + [Sentinel] + later;
    }
  }

  /** `ProtocolCodec.encode(msg)` as the sender calls it, with the defaults: JSON serializer, compressed. */
  function SendFrame(reg: Registry<Record>, z: Zlib, rec: Record): Result<seq<byte>> {
    Encode(reg, z, rec, SERIALIZE_JSON, true)
  }

  /**
   * What the sender writes: KeyError without a JSON serializer, and otherwise a frame whose
   * header is marked JSON and compressed and declares the length of the body after it.
   */
  lemma SendFrameHeader(reg: Registry<Record>, z: Zlib, rec: Record)
    ensures SERIALIZE_JSON !in reg ==> SendFrame(reg, z, rec) == Err(KeyError)
    ensures var r := SendFrame(reg, z, rec);
            r.Ok? ==> |r.value| >= HEADER_LEN && Packable(Header(|r.value| - HEADER_LEN, SERIALIZE_JSON, true))
                      && r.value[..HEADER_LEN] == HeaderBytes(Header(|r.value| - HEADER_LEN, SERIALIZE_JSON, true))
  {
    var r := SendFrame(reg, z, rec);
    if r.Ok? {
      EncodeParts(reg, z, rec, SERIALIZE_JSON, true, r.value);
    }
  }

  /** The frames the sender writes for some records; a record whose encoding fails is logged and skipped. */
  function Frames(reg: Registry<Record>, z: Zlib, rs: seq<Record>): (fs: seq<seq<byte>>)
    ensures |fs| <= |rs|
  {
    if rs == [] then []
    else
      var f := SendFrame(reg, z, rs[0]);
      (if f.Ok? then [f.value] else []) + Frames(reg, z, rs[1..])
  }

  /** The frames for one more record at the front. */
  lemma FramesCons(reg: Registry<Record>, z: Zlib, r: Record, rs: seq<Record>)
    ensures Frames(reg, z, [r] + rs) ==
            (if SendFrame(reg, z, r).Ok? then [SendFrame(reg, z, r).value] else []) + Frames(reg, z, rs)
  {
    assert ([r] + rs)[1..] == rs;
  }

  /** The records whose frame could be encoded. */
  function Sendable(reg: Registry<Record>, z: Zlib, rs: seq<Record>): (r: seq<Record>)
    ensures |r| == |Frames(reg, z, rs)|
  {
    if rs == [] then []
    else (if SendFrame(reg, z, rs[0]).Ok? then [rs[0]] else []) + Sendable(reg, z, rs[1..])
  }

  /** The i-th frame written is the encoding of the i-th sendable record. */
  lemma {:induction false} FramesSendable(reg: Registry<Record>, z: Zlib, rs: seq<Record>)
    ensures |Frames(reg, z, rs)| == |Sendable(reg, z, rs)|
    ensures forall i :: 0 <= i < |Frames(reg, z, rs)| ==>
              SendFrame(reg, z, Sendable(reg, z, rs)[i]) == Ok(Frames(reg, z, rs)[i])
  {
    if rs != [] {
      FramesSendable(reg, z, rs[1..]);
      var fs, ss := Frames(reg, z, rs[1..]), Sendable(reg, z, rs[1..]);
      var f := SendFrame(reg, z, rs[0]);
      if f.Ok? {
        assert Frames(reg, z, rs) == [f.value] + fs;
        assert Sendable(reg, z, rs) == [rs[0]] + ss;
      } else {
        assert Frames(reg, z, rs) == [] + fs;
        assert Sendable(reg, z, rs) == [] + ss;
      }
    }
  }

  /** Frames laid end to end. */
  function Concat(fs: seq<seq<byte>>): seq<byte> {
    if fs == [] then [] else fs[0] + Concat(fs[1..])
  }

  /** Splitting the tail of a buffer that holds `e` then `rest`. */
  lemma SplitTail(buf: seq<byte>, off: nat, next: nat, e: seq<byte>, rest: seq<byte>)
    requires off <= |buf| && buf[off..] == e + rest && next == off + |e|
    ensures next <= |buf| && buf[off..next] == e && buf[next..] == rest
  {
    assert buf[off..next] == (e + rest)[..|e|];
    assert buf[next..] == (e + rest)[|e|..];
  }

  /** One record off the front of the sender's list: its frame, if it has one, comes first. */
  lemma FramesStep(reg: Registry<Record>, z: Zlib, rs: seq<Record>)
    requires rs != []
    ensures SendFrame(reg, z, rs[0]).Ok? ==>
              && Concat(Frames(reg, z, rs)) == SendFrame(reg, z, rs[0]).value + Concat(Frames(reg, z, rs[1..]))
              && Sendable(reg, z, rs) == [rs[0]] + Sendable(reg, z, rs[1..])
    ensures !SendFrame(reg, z, rs[0]).Ok? ==>
              && Frames(reg, z, rs) == Frames(reg, z, rs[1..])
              && Sendable(reg, z, rs) == Sendable(reg, z, rs[1..])
  {
    var fs := Frames(reg, z, rs);
    if SendFrame(reg, z, rs[0]).Ok? {
      assert fs == [SendFrame(reg, z, rs[0]).value] + Frames(reg, z, rs[1..]);
      assert fs[1..] == Frames(reg, z, rs[1..]);
    } else {
      assert fs == [] + Frames(reg, z, rs[1..]);
      assert Sendable(reg, z, rs) == [] + Sendable(reg, z, rs[1..]);
    }
  }

  /**
   * Frames laid end to end from offset `off` to the end of the buffer decode to their
   * records, in order, and the decoder consumes all of them.
   */
  lemma {:induction false} DecodeSentFrames(reg: Registry<Record>, z: Zlib, rs: seq<Record>, buf: seq<byte>, off: nat)
    requires SERIALIZE_JSON in reg && RoundTrips(reg[SERIALIZE_JSON]) && Inflates(z)
    requires off <= |buf| && buf[off..] == Concat(Frames(reg, z, rs))
    decreases rs
    ensures DecodeFrom(reg, z, buf, off) == Decoded(Sendable(reg, z, rs), |buf|)
  {
    if rs == [] {
      DecodeFromStop(reg, z, buf, off);
    } else {
      FramesStep(reg, z, rs);
      var f := SendFrame(reg, z, rs[0]);
      if f.Ok? {
        var next := off + |f.value|;
        SplitTail(buf, off, next, f.value, Concat(Frames(reg, z, rs[1..])));
        DecodeSentFrames(reg, z, rs[1..], buf, next);
        DecodeFrameThen(reg, z, rs[0], f.value, buf, off, next, Sendable(reg, z, rs[1..]));
      } else {
        DecodeSentFrames(reg, z, rs[1..], buf, off);
      }
    }
  }

  /** A frame the sender wrote, followed by frames that decode to `xs`, decodes to its record then `xs`. */
  lemma DecodeFrameThen(reg: Registry<Record>, z: Zlib, rec: Record, e: seq<byte>, buf: seq<byte>, off: nat, next: nat, xs: seq<Record>)
    requires SERIALIZE_JSON in reg && RoundTrips(reg[SERIALIZE_JSON]) && Inflates(z)
    requires SendFrame(reg, z, rec) == Ok(e)
    requires next == off + |e| <= |buf| && buf[off..next] == e
    requires DecodeFrom(reg, z, buf, next) == Decoded(xs, |buf|)
    ensures DecodeFrom(reg, z, buf, off) == Decoded([rec] + xs, |buf|)
  {
    DecodeOverFrame(reg, z, rec, SERIALIZE_JSON, true, e, buf, off);
  }

  /**
   * What the sender puts on the socket decodes, on the listener, to the same records in
   * the same order, given serializer and compressor round trips.
   */
  lemma SentFramesDecode(reg: Registry<Record>, z: Zlib, rs: seq<Record>)
    requires SERIALIZE_JSON in reg && RoundTrips(reg[SERIALIZE_JSON]) && Inflates(z)
    ensures var wire := Concat(Frames(reg, z, rs));
            DecodeFrom(reg, z, wire, 0) == Decoded(Sendable(reg, z, rs), |wire|)
  {
    var wire := Concat(Frames(reg, z, rs));
    assert wire[0..] == wire;
    DecodeSentFrames(reg, z, rs, wire, 0);
  }
}
