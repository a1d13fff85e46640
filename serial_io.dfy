/**
 * The publish/subscribe router over the serial link. A message on the wire is
 *
 *     COBS([channel] ++ msgpack(doc) ++ [crc8]) ++ [0x00]
 *
 * and the receiver collects bytes up to each 0x00, undoes the byte stuffing,
 * checks length and checksum, decodes the document and hands it to the handler
 * registered for the channel. The serial port is modelled as the sequence of
 * bytes available to read and the log of bytes written; handler calls are
 * recorded as events.
 */
module SerialIo {
  import opened Bytes
  import opened Wrappers
  import opened JsonDoc
  import opened Cobs
  import opened Crc8Calc

  // ---------------------------------------------------------------------------
  // Frames
  // ---------------------------------------------------------------------------

  /** The channel as the firmware narrows it to `uint8_t`: modulo 256. */
  function ChannelByte(channel: int): (b: byte)
    ensures b as int == channel % 256
  {
    ByteOf(channel % 256)
  }

  /** The checksummed part of a packet: channel byte, then the MessagePack payload. */
  function Message(codec: MsgPack, channel: int, doc: Doc): seq<byte>
  {
    [ChannelByte(channel)] + codec.encode(doc)
  }

  /**
   * A packet before byte stuffing: the message followed by its CRC-8. It carries the
   * channel byte first and the payload in between, and passes the receiver's test that
   * the last byte is the checksum of the others.
   */
  function Packet(codec: MsgPack, channel: int, doc: Doc): (p: seq<byte>)
    ensures |p| == |codec.encode(doc)| + 2 && p[0] == ChannelByte(channel)
    ensures p[1..|p| - 1] == codec.encode(doc)
    ensures Crc8(p[..|p| - 1]) == p[|p| - 1]
  {
    var m := Message(codec, channel, doc);
    assert (m + [Crc8(m)])[..|m|] == m;
    m + [Crc8(m)]
  }

  /**
   * The bytes `publish` writes: the stuffed packet and the 0x00 delimiter. The
   * delimiter is the only 0x00, and unstuffing what precedes it gives the packet back.
   */
  function Frame(codec: MsgPack, channel: int, doc: Doc): (f: seq<byte>)
    ensures |f| >= 2 && f[|f| - 1] == 0 && ZeroFree(f[..|f| - 1])
    ensures Decode(f[..|f| - 1]) == Packet(codec, channel, doc)
  {
    var p := Packet(codec, channel, doc);
    EncodeZeroFree(p, []);
    EncodeLength(p);
    RoundTrip(p);
    assert (Encode(p) + [0])[..|Encode(p)|] == Encode(p);
    Encode(p) + [0]
  }

  // ---------------------------------------------------------------------------
  // Packet checks
  // ---------------------------------------------------------------------------

  /** An opaque subscription callback, told apart by an identifier. */
  datatype Handler = Handler(id: nat)

  /** One call of a handler with a decoded document. */
  datatype Event = Event(handler: Handler, doc: Doc)

  /** What happens to a decoded packet. */
  datatype Outcome =
    | TooShort
    | CrcMismatch
    | DecodeFailed
    | NoHandler(channel: byte)
    | Dispatched(handler: Handler, doc: Doc)

  /**
   * The checks of the packet handler, in its order: at least three bytes, the last
   * byte equal to the CRC-8 of the others, a payload MessagePack accepts, and a
   * handler registered for the first byte.
   */
  function Process(codec: MsgPack, callbacks: map<byte, Handler>, packet: seq<byte>): (o: Outcome)
    ensures o.TooShort? <==> |packet| < 3
    ensures o.CrcMismatch? <==> |packet| >= 3 && Crc8(packet[..|packet| - 1]) != packet[|packet| - 1]
    ensures o.Dispatched? ==>
      |packet| >= 3 && Crc8(packet[..|packet| - 1]) == packet[|packet| - 1] &&
      codec.decode(packet[1..|packet| - 1]) == Some(o.doc) &&
      packet[0] in callbacks && o.handler == callbacks[packet[0]]
    ensures |packet| >= 3 && Crc8(packet[..|packet| - 1]) == packet[|packet| - 1] ==>
      o == match codec.decode(packet[1..|packet| - 1])
           case None => DecodeFailed
           case Some(d) => if packet[0] in callbacks then Dispatched(callbacks[packet[0]], d) else NoHandler(packet[0])
  {
    if |packet| < 3 then TooShort
    else
      var message := packet[..|packet| - 1];
      if Crc8(message) != packet[|packet| - 1] then CrcMismatch
      else
        match codec.decode(message[1..])
        case None => DecodeFailed
        case Some(doc) =>
          if message[0] in callbacks then Dispatched(callbacks[message[0]], doc) else NoHandler(message[0])
  }

  /** The handler calls an outcome makes: one for a dispatch, none otherwise. */
  function Calls(o: Outcome): (es: seq<Event>)
    ensures |es| <= 1
    ensures es != [] <==> o.Dispatched?
    ensures o.Dispatched? ==> es == [Event(o.handler, o.doc)]
  {
    if o.Dispatched? then [Event(o.handler, o.doc)] else []
  }

  /** Bytes `lo` to `hi` of `line` are the characters `lo` to `hi` of `text`. */
  predicate SpellsRange(line: seq<byte>, text: string, lo: nat, hi: nat)
    requires lo <= hi <= |line| && hi <= |text|
  {
    forall i :: lo <= i < hi ==> line[i] as int == text[i] as int
  }

  /** `line` holds the characters of `text` as bytes, one byte per character. */
  predicate Spells(line: seq<byte>, text: string)
  {
    |line| == |text| && SpellsRange(line, text, 0, |line|)
  }

  /** The bytes `Serial.println("Packet too short")` writes: the text, then CR and LF. */
  const TooShortLine: seq<byte> :=
    [0x50, 0x61, 0x63, 0x6B, 0x65, 0x74, 0x20, 0x74, 0x6F, 0x6F, 0x20, 0x73, 0x68, 0x6F, 0x72, 0x74,
     0x0D, 0x0A]

  lemma TooShortText0()
    ensures SpellsRange(TooShortLine, "Packet too short\r\n", 0, 9)
  {
    var t := "Packet too short\r\n";
    assert TooShortLine[0] as int == t[0] as int;
    assert TooShortLine[1] as int == t[1] as int;
    assert TooShortLine[2] as int == t[2] as int;
    assert TooShortLine[3] as int == t[3] as int;
    assert TooShortLine[4] as int == t[4] as int;
    assert TooShortLine[5] as int == t[5] as int;
    assert TooShortLine[6] as int == t[6] as int;
    assert TooShortLine[7] as int == t[7] as int;
    assert TooShortLine[8] as int == t[8] as int;
  }

  lemma TooShortText9()
    ensures SpellsRange(TooShortLine, "Packet too short\r\n", 9, 18)
  {
    var t := "Packet too short\r\n";
    assert TooShortLine[9] as int == t[9] as int;
    assert TooShortLine[10] as int == t[10] as int;
    assert TooShortLine[11] as int == t[11] as int;
    assert TooShortLine[12] as int == t[12] as int;
    assert TooShortLine[13] as int == t[13] as int;
    assert TooShortLine[14] as int == t[14] as int;
    assert TooShortLine[15] as int == t[15] as int;
    assert TooShortLine[16] as int == t[16] as int;
    assert TooShortLine[17] as int == t[17] as int;
  }

  /** `TooShortLine` spells "Packet too short" followed by CR and LF. */
  lemma TooShortText()
    ensures Spells(TooShortLine, "Packet too short\r\n")
  {
    TooShortText0();
    TooShortText9();
  }

  /** The bytes `Serial.println("CRC mismatch")` writes: the text, then CR and LF. */
  const CrcMismatchLine: seq<byte> :=
    [0x43, 0x52, 0x43, 0x20, 0x6D, 0x69, 0x73, 0x6D, 0x61, 0x74, 0x63, 0x68, 0x0D, 0x0A]

  lemma CrcMismatchText0()
    ensures SpellsRange(CrcMismatchLine, "CRC mismatch\r\n", 0, 9)
  {
    var t := "CRC mismatch\r\n";
    assert CrcMismatchLine[0] as int == t[0] as int;
    assert CrcMismatchLine[1] as int == t[1] as int;
    assert CrcMismatchLine[2] as int == t[2] as int;
    assert CrcMismatchLine[3] as int == t[3] as int;
    assert CrcMismatchLine[4] as int == t[4] as int;
    assert CrcMismatchLine[5] as int == t[5] as int;
    assert CrcMismatchLine[6] as int == t[6] as int;
    assert CrcMismatchLine[7] as int == t[7] as int;
    assert CrcMismatchLine[8] as int == t[8] as int;
  }

  lemma CrcMismatchText9()
    ensures SpellsRange(CrcMismatchLine, "CRC mismatch\r\n", 9, 14)
  {
    var t := "CRC mismatch\r\n";
    assert CrcMismatchLine[9] as int == t[9] as int;
    assert CrcMismatchLine[10] as int == t[10] as int;
    assert CrcMismatchLine[11] as int == t[11] as int;
    assert CrcMismatchLine[12] as int == t[12] as int;
    assert CrcMismatchLine[13] as int == t[13] as int;
  }

  /** `CrcMismatchLine` spells "CRC mismatch" followed by CR and LF. */
  lemma CrcMismatchText()
    ensures Spells(CrcMismatchLine, "CRC mismatch\r\n")
  {
    CrcMismatchText0();
    CrcMismatchText9();
  }

  /** The bytes `Serial.println("MsgPack decoding failed")` writes: the text, then CR and LF. */
  const DecodeFailedLine: seq<byte> :=
    [0x4D, 0x73, 0x67, 0x50, 0x61, 0x63, 0x6B, 0x20, 0x64, 0x65, 0x63, 0x6F, 0x64, 0x69, 0x6E, 0x67,
     0x20, 0x66, 0x61, 0x69, 0x6C, 0x65, 0x64, 0x0D, 0x0A]

  lemma DecodeFailedText0()
    ensures SpellsRange(DecodeFailedLine, "MsgPack decoding failed\r\n", 0, 9)
  {
    var t := "MsgPack decoding failed\r\n";
    assert DecodeFailedLine[0] as int == t[0] as int;
    assert DecodeFailedLine[1] as int == t[1] as int;
    assert DecodeFailedLine[2] as int == t[2] as int;
    assert DecodeFailedLine[3] as int == t[3] as int;
    assert DecodeFailedLine[4] as int == t[4] as int;
    assert DecodeFailedLine[5] as int == t[5] as int;
    assert DecodeFailedLine[6] as int == t[6] as int;
    assert DecodeFailedLine[7] as int == t[7] as int;
    assert DecodeFailedLine[8] as int == t[8] as int;
  }

  lemma DecodeFailedText9()
    ensures SpellsRange(DecodeFailedLine, "MsgPack decoding failed\r\n", 9, 18)
  {
    var t := "MsgPack decoding failed\r\n";
    assert DecodeFailedLine[9] as int == t[9] as int;
    assert DecodeFailedLine[10] as int == t[10] as int;
    assert DecodeFailedLine[11] as int == t[11] as int;
    assert DecodeFailedLine[12] as int == t[12] as int;
    assert DecodeFailedLine[13] as int == t[13] as int;
    assert DecodeFailedLine[14] as int == t[14] as int;
    assert DecodeFailedLine[15] as int == t[15] as int;
    assert DecodeFailedLine[16] as int == t[16] as int;
    assert DecodeFailedLine[17] as int == t[17] as int;
  }

  lemma DecodeFailedText18()
    ensures SpellsRange(DecodeFailedLine, "MsgPack decoding failed\r\n", 18, 25)
  {
    var t := "MsgPack decoding failed\r\n";
    assert DecodeFailedLine[18] as int == t[18] as int;
    assert DecodeFailedLine[19] as int == t[19] as int;
    assert DecodeFailedLine[20] as int == t[20] as int;
    assert DecodeFailedLine[21] as int == t[21] as int;
    assert DecodeFailedLine[22] as int == t[22] as int;
    assert DecodeFailedLine[23] as int == t[23] as int;
    assert DecodeFailedLine[24] as int == t[24] as int;
  }

  /** `DecodeFailedLine` spells "MsgPack decoding failed" followed by CR and LF. */
  lemma DecodeFailedText()
    ensures Spells(DecodeFailedLine, "MsgPack decoding failed\r\n")
  {
    DecodeFailedText0();
    DecodeFailedText9();
    DecodeFailedText18();
  }

  /**
   * What the packet handler writes to the serial port, the same port that carries
   * the frames: a line naming the check a rejected packet failed, and nothing for a
   * packet that passes all three checks. The line holds no 0x00.
   */
  function Diagnostic(o: Outcome): (d: seq<byte>)
    ensures d == [] <==> o.Dispatched? || o.NoHandler?
    ensures ZeroFree(d)
  {
    match o
    case TooShort => TooShortLine
    case CrcMismatch => CrcMismatchLine
    case DecodeFailed => DecodeFailedLine
    case _ => []
  }

  /** A published packet passes the length and checksum checks and reaches the channel's handler. */
  lemma PacketAccepted(codec: MsgPack, callbacks: map<byte, Handler>, channel: int, doc: Doc)
    requires codec.encode(doc) != []
    ensures !Process(codec, callbacks, Packet(codec, channel, doc)).TooShort?
    ensures !Process(codec, callbacks, Packet(codec, channel, doc)).CrcMismatch?
    ensures codec.decode(codec.encode(doc)) == Some(doc) && ChannelByte(channel) in callbacks ==>
      Process(codec, callbacks, Packet(codec, channel, doc)) == Dispatched(callbacks[ChannelByte(channel)], doc)
    ensures ChannelByte(channel) !in callbacks ==> Calls(Process(codec, callbacks, Packet(codec, channel, doc))) == []
  {
    var m := Message(codec, channel, doc);
    var p := Packet(codec, channel, doc);
    assert p[..|p| - 1] == m;
    assert p[1..|p| - 1] == codec.encode(doc);
  }

  /** An error in one byte of the checksummed part changes its checksum but not the trailing byte. */
  lemma MessageByteError(packet: seq<byte>, bad: seq<byte>, i: nat, e: byte)
    requires |packet| >= 3 && Crc8(packet[..|packet| - 1]) == packet[|packet| - 1]
    requires i < |packet| - 1 && e != 0 && bad == packet[i := packet[i] ^ e]
    ensures |bad| == |packet| && Crc8(bad[..|bad| - 1]) != bad[|bad| - 1]
  {
    var n := |packet| - 1;
    var m := packet[..n];
    assert bad[..n] == m[i := m[i] ^ e];
    assert bad[n] == packet[n];
    SingleByteError(m, i, e);
  }

  /** An error in the trailing checksum byte leaves the message, so its checksum no longer matches. */
  lemma ChecksumByteError(packet: seq<byte>, bad: seq<byte>, e: byte)
    requires |packet| >= 3 && Crc8(packet[..|packet| - 1]) == packet[|packet| - 1]
    requires e != 0 && bad == packet[|packet| - 1 := packet[|packet| - 1] ^ e]
    ensures |bad| == |packet| && Crc8(bad[..|bad| - 1]) != bad[|bad| - 1]
  {
    var n := |packet| - 1;
    assert bad[..n] == packet[..n];
    XorErrorDiffers(0, packet[n], e);
  }

  /**
   * Any error confined to one byte of a packet whose checksum matched, whether in the
   * channel, the payload or the checksum itself, makes the packet fail the CRC test,
   * so the message is dropped and no handler is called.
   */
  lemma CorruptedByteRejected(codec: MsgPack, callbacks: map<byte, Handler>, packet: seq<byte>, i: nat, e: byte)
    requires |packet| >= 3 && Crc8(packet[..|packet| - 1]) == packet[|packet| - 1]
    requires i < |packet| && e != 0
    ensures Process(codec, callbacks, packet[i := packet[i] ^ e]) == CrcMismatch
    ensures Calls(Process(codec, callbacks, packet[i := packet[i] ^ e])) == []
  {
    var bad := packet[i := packet[i] ^ e];
    if i < |packet| - 1 {
      MessageByteError(packet, bad, i, e);
    } else {
      ChecksumByteError(packet, bad, e);
    }
  }

  /** Flipping any single bit of a packet whose checksum matched makes the checksum fail. */
  lemma CorruptedPacketRejected(codec: MsgPack, callbacks: map<byte, Handler>, packet: seq<byte>, i: nat, j: nat)
    requires |packet| >= 3 && Crc8(packet[..|packet| - 1]) == packet[|packet| - 1]
    requires i < |packet| && j < 8
    ensures Process(codec, callbacks, packet[i := packet[i] ^ BitMask[j]]) == CrcMismatch
  {
    assert BitMask[j] != 0;
    CorruptedByteRejected(codec, callbacks, packet, i, BitMask[j]);
  }

  // ---------------------------------------------------------------------------
  // Receiving
  // ---------------------------------------------------------------------------

  /** The receiver's state: the bytes of the frame in progress, and the frames completed so far. */
  datatype Receiver = Receiver(buffer: seq<byte>, frames: seq<seq<byte>>)

  /**
   * One received byte: a 0x00 completes a non-empty frame and is otherwise dropped; any
   * other byte is collected. Completed frames are kept, and one is added exactly when a
   * 0x00 ends a non-empty collection; 0x00 is never collected.
   */
  function Accept(r: Receiver, b: byte): (r': Receiver)
    ensures |r.frames| <= |r'.frames| <= |r.frames| + 1 && r'.frames[..|r.frames|] == r.frames
    ensures |r'.frames| == |r.frames| + 1 <==> b == 0 && r.buffer != []
    ensures ZeroFree(r.buffer) ==> ZeroFree(r'.buffer)
  {
    if b == 0 then
      if r.buffer != [] then Receiver([], r.frames + [r.buffer]) else r
    else Receiver(r.buffer + [b], r.frames)
  }

  /** The receiver after `input`, one byte after another: it keeps the frames it had and adds at most one per byte. */
  function Feed(r: Receiver, input: seq<byte>): (r': Receiver)
    ensures |r.frames| <= |r'.frames| <= |r.frames| + |input|
    ensures r'.frames[..|r.frames|] == r.frames
  {
    if input == [] then r
    else
      var mid := Feed(r, input[..|input| - 1]);
      assert mid.frames[..|r.frames|] == r.frames;
      Accept(mid, input[|input| - 1])
  }

  /** The handler calls the completed frames cause, in order: at most one per frame. */
  function Handle(codec: MsgPack, callbacks: map<byte, Handler>, frames: seq<seq<byte>>): (es: seq<Event>)
    ensures |es| <= |frames|
  {
    if frames == [] then []
    else Handle(codec, callbacks, frames[..|frames| - 1])
         + Calls(Process(codec, callbacks, Decode(frames[|frames| - 1])))
  }

  /** The diagnostic lines the completed frames cause, in order. */
  function Diagnostics(codec: MsgPack, callbacks: map<byte, Handler>, frames: seq<seq<byte>>): (out: seq<byte>)
    ensures ZeroFree(out)
  {
    if frames == [] then []
    else
      var before := Diagnostics(codec, callbacks, frames[..|frames| - 1]);
      var last := Diagnostic(Process(codec, callbacks, Decode(frames[|frames| - 1])));
      ZeroFreeAppend(before, last);
      before + last
  }

  /** The collected bytes never contain 0x00, and every completed frame is non-empty and free of 0x00. */
  lemma {:induction false} FeedZeroFree(r: Receiver, input: seq<byte>)
    requires ZeroFree(r.buffer)
    ensures ZeroFree(Feed(r, input).buffer)
    ensures var fs := Feed(r, input).frames;
      |fs| >= |r.frames| && fs[..|r.frames|] == r.frames &&
      forall k :: |r.frames| <= k < |fs| ==> fs[k] != [] && ZeroFree(fs[k])
  {
    if input != [] {
      FeedZeroFree(r, input[..|input| - 1]);
    }
  }

  /** Bytes without 0x00 are only collected. */
  lemma {:induction false} FeedCollects(r: Receiver, s: seq<byte>)
    requires ZeroFree(s)
    ensures Feed(r, s) == Receiver(r.buffer + s, r.frames)
  {
    if s != [] {
      FeedCollects(r, s[..|s| - 1]);
      assert r.buffer + s[..|s| - 1] + [s[|s| - 1]] == r.buffer + s;
    }
  }

  /** The receiver after one more byte of the input. */
  lemma FeedNext(r: Receiver, input: seq<byte>, i: nat)
    requires i < |input|
    ensures Feed(r, input[..i + 1]) == Accept(Feed(r, input[..i]), input[i])
  {
    assert input[..i + 1][..i] == input[..i];
  }

  /** One more completed frame adds the calls its packet causes, after the earlier ones. */
  lemma HandleNext(codec: MsgPack, callbacks: map<byte, Handler>, frames: seq<seq<byte>>, f: seq<byte>)
    ensures Handle(codec, callbacks, frames + [f]) ==
      Handle(codec, callbacks, frames) + Calls(Process(codec, callbacks, Decode(f)))
  {
    assert (frames + [f])[..|frames|] == frames;
  }

  /** One more completed frame adds the line its packet causes, after the earlier ones. */
  lemma DiagnosticsNext(codec: MsgPack, callbacks: map<byte, Handler>, frames: seq<seq<byte>>, f: seq<byte>)
    ensures Diagnostics(codec, callbacks, frames + [f]) ==
      Diagnostics(codec, callbacks, frames) + Diagnostic(Process(codec, callbacks, Decode(f)))
  {
    assert (frames + [f])[..|frames|] == frames;
  }

  /** What one byte does to the collected bytes, the handler calls and the lines written. */
  lemma AcceptCalls(codec: MsgPack, callbacks: map<byte, Handler>, r: Receiver, b: byte)
    ensures Accept(r, b).buffer == if b == 0 then [] else r.buffer + [b]
    ensures Handle(codec, callbacks, Accept(r, b).frames) ==
      Handle(codec, callbacks, r.frames) +
      (if b == 0 && r.buffer != [] then Calls(Process(codec, callbacks, Decode(r.buffer))) else [])
    ensures Diagnostics(codec, callbacks, Accept(r, b).frames) ==
      Diagnostics(codec, callbacks, r.frames) +
      (if b == 0 && r.buffer != [] then Diagnostic(Process(codec, callbacks, Decode(r.buffer))) else [])
  {
    if b == 0 && r.buffer != [] {
      HandleNext(codec, callbacks, r.frames, r.buffer);
      DiagnosticsNext(codec, callbacks, r.frames, r.buffer);
    } else {
      assert Handle(codec, callbacks, r.frames) + [] == Handle(codec, callbacks, r.frames);
      assert Diagnostics(codec, callbacks, r.frames) + [] == Diagnostics(codec, callbacks, r.frames);
    }
  }

  /** A receiver with nothing collected turns a published frame into exactly that packet. */
  lemma ReceiveFrame(codec: MsgPack, channel: int, doc: Doc)
    ensures var r := Feed(Receiver([], []), Frame(codec, channel, doc));
      r.buffer == [] && |r.frames| == 1 && Decode(r.frames[0]) == Packet(codec, channel, doc)
  {
    var f := Frame(codec, channel, doc);
    var e := f[..|f| - 1];
    FeedCollects(Receiver([], []), e);
    assert [] + e == e;
    assert Feed(Receiver([], []), f) == Accept(Receiver(e, []), 0);
  }

  /**
   * Loopback: the bytes one side publishes, fed to an idle receiver, call the
   * channel's handler exactly once with the document, provided MessagePack gives
   * the document back and its encoding is not empty; with no handler registered,
   * nothing is called.
   */
  lemma Loopback(codec: MsgPack, callbacks: map<byte, Handler>, channel: int, doc: Doc)
    requires codec.encode(doc) != []
    requires codec.decode(codec.encode(doc)) == Some(doc)
    ensures var r := Feed(Receiver([], []), Frame(codec, channel, doc));
      Handle(codec, callbacks, r.frames) ==
        if ChannelByte(channel) in callbacks then [Event(callbacks[ChannelByte(channel)], doc)] else []
  {
    ReceiveFrame(codec, channel, doc);
    PacketAccepted(codec, callbacks, channel, doc);
    var r := Feed(Receiver([], []), Frame(codec, channel, doc));
    assert r.frames[..0] == [];
  }

  /**
   * A diagnostic line holds no 0x00, so a receiver that frames the same way takes it
   * as the start of the next frame: fed the line and then a published frame, an idle
   * receiver completes one frame holding both.
   */
  lemma LineJoinsNextFrame(o: Outcome, codec: MsgPack, channel: int, doc: Doc)
    ensures var f := Frame(codec, channel, doc);
      var r := Feed(Receiver([], []), Diagnostic(o) + f);
      r.buffer == [] && r.frames == [Diagnostic(o) + f[..|f| - 1]]
  {
    JoinsFrame(Diagnostic(o), Frame(codec, channel, doc));
  }

  /** Bytes without 0x00 in front of a delimited frame become part of that frame. */
  lemma JoinsFrame(d: seq<byte>, f: seq<byte>)
    requires ZeroFree(d) && |f| >= 2 && f[|f| - 1] == 0 && ZeroFree(f[..|f| - 1])
    ensures var r := Feed(Receiver([], []), d + f);
      r.buffer == [] && r.frames == [d + f[..|f| - 1]]
  {
    var e := f[..|f| - 1];
    var s := d + f;
    var n := |s| - 1;
    assert s[..n] == d + e && s[n] == 0 && s[..n + 1] == s;
    ZeroFreeAppend(d, e);
    FeedCollects(Receiver([], []), d + e);
    FeedNext(Receiver([], []), s, n);
    var before := Feed(Receiver([], []), s[..n]);
    assert before == Receiver(d + e, []);
    assert Accept(before, 0) == Receiver([], [d + e]);
  }

  /**
   * The first byte of each line ('P', 'C' or 'M') reads as a COBS code of at least
   * 0x43. When the line and the next frame are 67 bytes or fewer together, the
   * joined frame fails to decode: the published document is lost, and the receiver
   * calls no handler.
   */
  lemma LineSwallowsShortFrame(o: Outcome, codec: MsgPack, callbacks: map<byte, Handler>, channel: int, doc: Doc)
    requires Diagnostic(o) != []
    requires |Diagnostic(o)| + |Frame(codec, channel, doc)| <= 67
    ensures var f := Frame(codec, channel, doc);
      var joined := Diagnostic(o) + f[..|f| - 1];
      Decode(joined) == [] && Process(codec, callbacks, Decode(joined)) == TooShort
  {
    var f := Frame(codec, channel, doc);
    var d := Diagnostic(o);
    var joined := d + f[..|f| - 1];
    assert d[0] as int >= 0x43;
    assert joined[0] == d[0];
  }

  // ---------------------------------------------------------------------------
  // The router object
  // ---------------------------------------------------------------------------

  class SerialIO {
    /** The MessagePack serialiser the firmware links against. */
    const codec: MsgPack
    /** Channel → handler. */
    var callbacks: map<byte, Handler>
    /** The bytes of the frame being received. */
    var buffer: seq<byte>
    /** Every byte written to the serial port so far: frames and diagnostic lines. */
    var output: seq<byte>
    /** Every handler call so far. */
    ghost var events: seq<Event>

    constructor (codec: MsgPack)
      ensures this.codec == codec
      ensures callbacks == map[] && buffer == [] && output == [] && events == []
    {
      this.codec := codec;
      callbacks, buffer, output := map[], [], [];
      events := [];
    }

    /** Register `h` for `channel`, replacing any earlier registration. */
    method Subscribe(channel: byte, h: Handler)
      modifies this
      ensures callbacks == old(callbacks)[channel := h]
      ensures buffer == old(buffer) && output == old(output) && events == old(events)
    {
      callbacks := callbacks[channel := h];
    }

    /** Serialise `doc`, frame it for `channel` and write the frame. */
    method Publish(channel: int, doc: Doc)
      modifies this
      ensures output == old(output) + Frame(codec, channel, doc)
      ensures callbacks == old(callbacks) && buffer == old(buffer) && events == old(events)
    {
      var payload := codec.encode(doc);
      var message := [ChannelByte(channel)] + payload;
      var crc := ComputeCrc8(message);
      message := message + [crc];
      var encoded := EncodeBytes(message);
      encoded := encoded + [0];
      output := output + encoded;
    }

    /** Check a decoded packet and, if it passes, call the channel's handler with its document. */
    method ProcessPacket(packet: seq<byte>)
      modifies this
      ensures events == old(events) + Calls(Process(codec, callbacks, packet))
      ensures output == old(output) + Diagnostic(Process(codec, callbacks, packet))
      ensures callbacks == old(callbacks) && buffer == old(buffer)
    {
      if |packet| < 3 {
        output := output + Diagnostic(TooShort);
        return;
      }
      var received := packet[|packet| - 1];
      var message := packet[..|packet| - 1];
      var crc := ComputeCrc8(message);
      if crc != received {
        output := output + Diagnostic(CrcMismatch);
        return;
      }
      var channel := message[0];
      var payload := message[1..];
      match codec.decode(payload)
      case None =>
        output := output + Diagnostic(DecodeFailed);
        return;
      case Some(doc) =>
        if channel in callbacks {
          events := events + [Event(callbacks[channel], doc)];
        }
        assert output + [] == output;
    }

    /** One byte of input: collect it, or on 0x00 process the collected frame, if any, and start afresh. */
    method OnByte(b: byte)
      modifies this
      ensures buffer == if b == 0 then [] else old(buffer) + [b]
      ensures events == old(events) +
        (if b == 0 && old(buffer) != [] then Calls(Process(codec, callbacks, Decode(old(buffer)))) else [])
      ensures output == old(output) +
        (if b == 0 && old(buffer) != [] then Diagnostic(Process(codec, callbacks, Decode(old(buffer)))) else [])
      ensures callbacks == old(callbacks)
    {
      if b == 0 {
        if buffer != [] {
          var decoded := DecodeBytes(buffer);
          ProcessPacket(decoded);
          buffer := [];
        } else {
          assert events + [] == events;
          assert output + [] == output;
        }
      } else {
        buffer := buffer + [b];
        assert events + [] == events;
        assert output + [] == output;
      }
    }

    /**
     * Drain the available input: collect non-zero bytes, and on each 0x00 that ends
     * a non-empty frame, undo the stuffing, process the packet and start afresh.
     */
    method UpdateSubscriber(input: seq<byte>)
      modifies this
      ensures buffer == Feed(Receiver(old(buffer), []), input).buffer
      ensures events == old(events) + Handle(codec, callbacks, Feed(Receiver(old(buffer), []), input).frames)
      ensures output == old(output) + Diagnostics(codec, callbacks, Feed(Receiver(old(buffer), []), input).frames)
      ensures callbacks == old(callbacks)
    {
      ghost var start := buffer;
      ghost var rx := Receiver(start, []);
      var i := 0;
      while i < |input|
        invariant 0 <= i <= |input|
        invariant callbacks == old(callbacks)
        invariant rx == Feed(Receiver(start, []), input[..i])
        invariant buffer == rx.buffer
        invariant events == old(events) + Handle(codec, callbacks, rx.frames)
        invariant output == old(output) + Diagnostics(codec, callbacks, rx.frames)
      {
        var b := input[i];
        FeedNext(Receiver(start, []), input, i);
        AcceptCalls(codec, callbacks, rx, b);
        ghost var calls := if b == 0 && buffer != [] then Calls(Process(codec, callbacks, Decode(buffer))) else [];
        ghost var lines := if b == 0 && buffer != [] then Diagnostic(Process(codec, callbacks, Decode(buffer))) else [];
        OnByte(b);
        Regroup(old(events), Handle(codec, callbacks, rx.frames), calls);
        Regroup(old(output), Diagnostics(codec, callbacks, rx.frames), lines);
        rx := Accept(rx, b);
        i := i + 1;
      }
      assert input[..i] == input;
    }
  }
}
