/** application/protocol/ota_packet.c and the packet codec of the gateway. */
module Packet {
  import opened Bytes
  import Crc32

  const MAGIC: half := 0xA55A
  const PROTOCOL_VERSION: byte := 1
  const MAX_PAYLOAD := 256
  const HEADER_SIZE := 16
  const CRC_SIZE := 4
  const MAX_RAW_SIZE := 276

  datatype Packet = Packet(
    magic: half,
    protocol: byte,
    command: byte,
    id: word,
    offset: word,
    sequence: half,
    payload: seq<byte>)

  /** What Deserialize accepts. */
  predicate Legal(p: Packet) { p.magic == MAGIC && p.protocol == PROTOCOL_VERSION && |p.payload| <= MAX_PAYLOAD }

  function HalfBytes(h: half): (r: seq<byte>)
    ensures |r| == 2
  {
    [h % 0x100, h / 0x100]
  }

  function Half(b: seq<byte>): half
    requires |b| == 2
  {
    b[0] as int + b[1] as int * 0x100
  }

  lemma HalfInverse(h: half, b: seq<byte>)
    ensures Half(HalfBytes(h)) == h
    ensures |b| == 2 ==> HalfBytes(Half(b)) == b
  {
  }

  /** Dividing a word by 2^16 or 2^24 is dividing by 256 twice or three times. */
  lemma DivideTwice(w: word)
    ensures w / 0x1_0000 == w / 0x100 / 0x100 && w / 0x100_0000 == w / 0x100 / 0x100 / 0x100
  {
  }

  lemma WordBack(w: word)
    ensures Word(LittleEndian(w)) == w
  {
    DivideTwice(w);
    var x := w / 0x100;
    var y := x / 0x100;
    assert w == w % 0x100 + 0x100 * x && x == x % 0x100 + 0x100 * y && y == y % 0x100 + 0x100 * (y / 0x100);
  }

  lemma BytesBack(b: seq<byte>)
    requires |b| == 4
    ensures LittleEndian(Word(b)) == b
  {
    var w := Word(b);
    DivideTwice(w);
    var y := b[2] as int + 0x100 * b[3] as int;
    var x := b[1] as int + 0x100 * y;
    assert w == b[0] as int + 0x100 * x;
    assert w / 0x100 == x && w % 0x100 == b[0];
    assert x / 0x100 == y && x % 0x100 == b[1];
    assert y / 0x100 == b[3] && y % 0x100 == b[2];
  }

  function Header(p: Packet): (r: seq<byte>)
    requires |p.payload| < 0x1_0000
    ensures |r| == HEADER_SIZE
  {
    HalfBytes(p.magic) + [p.protocol] + [p.command] + LittleEndian(p.id) + LittleEndian(p.offset) +
    HalfBytes(p.sequence) + HalfBytes(|p.payload|)
  }

  /** Header, payload, then the checksum of both. */
  function Serialize(p: Packet): (r: seq<byte>)
    requires |p.payload| < 0x1_0000
    ensures |r| == HEADER_SIZE + |p.payload| + CRC_SIZE
  {
    var body := Header(p) + p.payload;
    body + LittleEndian(Crc32.Checksum(body))
  }

  datatype Result = Ok(packet: Packet) | TooShort | BadMagic | BadVersion | BadLength | BadCrc

  /** OtaPacket_Deserialize */
  function Deserialize(raw: seq<byte>): Result {
    if |raw| < HEADER_SIZE + CRC_SIZE then TooShort
    else
      var n := Half(raw[14..16]);
      if Half(raw[0..2]) != MAGIC then BadMagic
      else if raw[2] != PROTOCOL_VERSION then BadVersion
      else if n > MAX_PAYLOAD || |raw| != HEADER_SIZE + n + CRC_SIZE then BadLength
      else if Word(raw[HEADER_SIZE + n..]) != Crc32.Checksum(raw[..HEADER_SIZE + n]) then BadCrc
      else
        Ok(Packet(Half(raw[0..2]), raw[2], raw[3], Word(raw[4..8]), Word(raw[8..12]), Half(raw[12..14]),
                  raw[HEADER_SIZE..HEADER_SIZE + n]))
  }

  /** UartOta_Deserialize: the gateway's checks, in its own order. */
  function GatewayDeserialize(raw: seq<byte>): Option<Packet> {
    if |raw| < HEADER_SIZE + CRC_SIZE || Half(raw[0..2]) != MAGIC || raw[2] != PROTOCOL_VERSION then None
    else
      var n := Half(raw[14..16]);
      if n > MAX_PAYLOAD then None
      else if |raw| != HEADER_SIZE + n + CRC_SIZE then None
      else if Word(raw[HEADER_SIZE + n..HEADER_SIZE + n + CRC_SIZE]) != Crc32.Checksum(raw[..HEADER_SIZE + n]) then None
      else Some(Packet(MAGIC, PROTOCOL_VERSION, raw[3], Word(raw[4..8]), Word(raw[8..12]), Half(raw[12..14]),
                       raw[HEADER_SIZE..HEADER_SIZE + n]))
  }

  /** Both ends accept the same packets and read the same fields. */
  lemma EndsAgree(raw: seq<byte>)
    ensures GatewayDeserialize(raw) == match Deserialize(raw) case Ok(p) => Some(p) case _ => None
  {
    hide Crc32.Checksum;
    if |raw| >= HEADER_SIZE + CRC_SIZE {
      var n := Half(raw[14..16]);
      if |raw| == HEADER_SIZE + n + CRC_SIZE {
        assert raw[HEADER_SIZE + n..HEADER_SIZE + n + CRC_SIZE] == raw[HEADER_SIZE + n..];
      }
    }
  }

  lemma HeaderFields(p: Packet)
    requires |p.payload| < 0x1_0000
    ensures var h := Header(p);
            && h[0..2] == HalfBytes(p.magic) && h[2] == p.protocol && h[3] == p.command
            && h[4..8] == LittleEndian(p.id) && h[8..12] == LittleEndian(p.offset)
            && h[12..14] == HalfBytes(p.sequence) && h[14..16] == HalfBytes(|p.payload|)
  {
    hide HalfBytes, LittleEndian;
  }

  lemma Front(raw: seq<byte>, front: seq<byte>, i: nat, j: nat)
    requires i <= j <= |front| && front <= raw
    ensures raw[i..j] == front[i..j]
  {
  }

  /** Deserializing a serialized packet gives it back exactly when it is legal. */
  lemma SerializeRoundTrip(p: Packet)
    requires |p.payload| < 0x1_0000
    ensures Deserialize(Serialize(p)) == Ok(p) <==> Legal(p)
  {
    hide HalfBytes, LittleEndian, Half, Word, Crc32.Checksum, Header;
    var h, raw := Header(p), Serialize(p);
    var body := h + p.payload;
    HeaderFields(p);
    HalfInverse(p.magic, []);
    HalfInverse(p.sequence, []);
    HalfInverse(|p.payload|, []);
    WordBack(p.id);
    WordBack(p.offset);
    WordBack(Crc32.Checksum(body));
    Front(raw, h, 0, 2);
    Front(raw, h, 4, 8);
    Front(raw, h, 8, 12);
    Front(raw, h, 12, 14);
    Front(raw, h, 14, 16);
    assert raw[2] == h[2] && raw[3] == h[3];
    var n := |p.payload|;
    assert raw[HEADER_SIZE..HEADER_SIZE + n] == p.payload;
    assert raw[..HEADER_SIZE + n] == body && raw[HEADER_SIZE + n..] == LittleEndian(Crc32.Checksum(body));
  }

  /** Nothing else deserializes: an accepted frame is the serialization of the packet it yields. */
  lemma DeserializeRoundTrip(raw: seq<byte>)
    requires Deserialize(raw).Ok?
    ensures Legal(Deserialize(raw).packet) && Serialize(Deserialize(raw).packet) == raw
  {
    hide HalfBytes, LittleEndian, Half, Word, Crc32.Checksum;
    var p := Deserialize(raw).packet;
    var n := |p.payload|;
    HalfInverse(0, raw[0..2]);
    HalfInverse(0, raw[12..14]);
    HalfInverse(0, raw[14..16]);
    BytesBack(raw[4..8]);
    BytesBack(raw[8..12]);
    BytesBack(raw[HEADER_SIZE + n..]);
    Reassemble(raw, n);
  }

  lemma Reassemble(raw: seq<byte>, n: nat)
    requires |raw| == HEADER_SIZE + n + CRC_SIZE
    ensures raw[0..2] + [raw[2]] + [raw[3]] + raw[4..8] + raw[8..12] + raw[12..14] + raw[14..16] == raw[..HEADER_SIZE]
    ensures raw[..HEADER_SIZE] + raw[HEADER_SIZE..HEADER_SIZE + n] == raw[..HEADER_SIZE + n]
    ensures raw[..HEADER_SIZE + n] + raw[HEADER_SIZE + n..] == raw
  {
  }

  /** OtaPacket_Serialize */
  method SerializeInto(p: Packet, raw: array<byte>) returns (ok: bool, length: nat)
    requires |p.payload| < 0x1_0000
    modifies raw
    ensures ok <==> |p.payload| <= MAX_PAYLOAD && |Serialize(p)| <= raw.Length
    ensures ok ==> length == |Serialize(p)| && raw[..length] == Serialize(p)
  {
    hide HalfBytes, LittleEndian, Crc32.Checksum, Header;
    if |p.payload| > MAX_PAYLOAD { return false, 0; }
    length := HEADER_SIZE + |p.payload| + CRC_SIZE;
    if raw.Length < length { return false, 0; }
    var header := Header(p);
    Put(raw, 0, header);
    assert raw[..HEADER_SIZE] == header + p.payload[..0];
    var i := 0;
    while i < |p.payload|
      invariant 0 <= i <= |p.payload| && raw[..HEADER_SIZE + i] == header + p.payload[..i]
    {
      raw[HEADER_SIZE + i] := p.payload[i];
      i := i + 1;
    }
    assert p.payload[..i] == p.payload;
    var body := raw[..HEADER_SIZE + |p.payload|];
    Put(raw, |body|, LittleEndian(Crc32.Checksum(body)));
    assert raw[..length] == body + LittleEndian(Crc32.Checksum(body));
    return true, length;
  }

  /** PutU16Le and PutU32Le */
  method Put(raw: array<byte>, at: nat, bytes: seq<byte>)
    requires at + |bytes| <= raw.Length
    modifies raw
    ensures raw[..at + |bytes|] == old(raw[..at]) + bytes
  {
    forall i | 0 <= i < |bytes| { raw[at + i] := bytes[i]; }
  }
}

/** application/protocol/ota_parser.c */
module Parser {
  import opened Bytes
  import opened Packet
  import Cobs

  const MAX_FRAME := 320

  datatype Event = Nothing | Received(packet: Packet) | ChecksumError | InvalidFrame

  /** The collected bytes of the current frame; a frame that outgrew the buffer is dropped at its end. */
  datatype State = State(encoded: seq<byte>, overflowed: bool)

  const START := State([], false)

  /** What a complete frame yields. */
  function FrameEvent(encoded: seq<byte>): Event {
    match Cobs.Decode(encoded)
    case None => InvalidFrame
    case Some(raw) =>
      if |raw| > MAX_RAW_SIZE then InvalidFrame
      else
        match Deserialize(raw)
        case Ok(p) => Received(p)
        case BadCrc => ChecksumError
        case _ => InvalidFrame
  }

  function NextState(s: State, b: byte): State {
    if b == 0 then START
    else if s.overflowed then s
    else if |s.encoded| >= MAX_FRAME then s.(overflowed := true)
    else s.(encoded := s.encoded + [b])
  }

  function EventAt(s: State, b: byte): Event {
    if b != 0 || s == START then Nothing
    else if s.overflowed then InvalidFrame
    else FrameEvent(s.encoded)
  }

  function After(s: State, stream: seq<byte>): State {
    if stream == [] then s else NextState(After(s, stream[..|stream| - 1]), stream[|stream| - 1])
  }

  /** The events of a whole stream, without the empty ones. */
  function Events(s: State, stream: seq<byte>): seq<Event> {
    if stream == [] then []
    else
      var before := stream[..|stream| - 1];
      var e := EventAt(After(s, before), stream[|stream| - 1]);
      Events(s, before) + (if e == Nothing then [] else [e])
  }

  function Frame(p: Packet): seq<byte>
    requires |p.payload| < 0x1_0000
  {
    Cobs.Encode(Serialize(p)) + [0]
  }

  lemma LastByte(s: State, stream: seq<byte>, b: byte)
    ensures After(s, stream + [b]) == NextState(After(s, stream), b)
    ensures var e := EventAt(After(s, stream), b);
            Events(s, stream + [b]) == Events(s, stream) + (if e == Nothing then [] else [e])
  {
    hide EventAt, NextState;
    assert (stream + [b])[..|stream|] == stream;
  }

  /** Bytes other than zero are only collected. */
  lemma {:induction false} Collects(s: State, noise: seq<byte>, bytes: seq<byte>)
    requires After(s, noise) == START && Cobs.NoZero(bytes) && |bytes| <= MAX_FRAME
    ensures After(s, noise + bytes) == State(bytes, false) && Events(s, noise + bytes) == Events(s, noise)
    decreases |bytes|
  {
    hide After, Events, FrameEvent;
    if bytes == [] {
      assert noise + bytes == noise;
    } else {
      var front, b := bytes[..|bytes| - 1], bytes[|bytes| - 1];
      Collects(s, noise, front);
      LastByte(s, noise + front, b);
      assert noise + bytes == noise + front + [b] && bytes == front + [b];
      assert Events(s, noise) + [] == Events(s, noise);
    }
  }

  /** Every legal packet fits into a frame. */
  lemma FrameFits(p: Packet)
    requires Legal(p)
    ensures Cobs.NoZero(Cobs.Encode(Serialize(p))) && 0 < |Cobs.Encode(Serialize(p))| <= MAX_FRAME
    ensures FrameEvent(Cobs.Encode(Serialize(p))) == Received(p)
  {
    hide Serialize, Deserialize, Cobs.Encode, Cobs.Decode;
    Cobs.EncodedShape(Serialize(p));
    Cobs.RoundTrip(Serialize(p));
    SerializeRoundTrip(p);
  }

  /**
   * Resynchronisation: after any bytes whatever and a zero, the parser fed one frame emits exactly the
   * packet in it, and is ready for the next.
   */
  lemma FrameDelivered(s: State, noise: seq<byte>, p: Packet)
    requires Legal(p)
    ensures var stream := noise + [0] + Frame(p);
            && After(s, stream) == START
            && Events(s, stream) == Events(s, noise + [0]) + [Received(p)]
  {
    hide After, Events, Serialize, FrameEvent, Cobs.Encode;
    var e := Cobs.Encode(Serialize(p));
    var sync := noise + [0];
    LastByte(s, noise, 0);
    FrameFits(p);
    Collects(s, sync, e);
    LastByte(s, sync + e, 0);
    assert sync + Frame(p) == sync + e + [0];
  }

  class Parser {
    const encoded: array<byte>
    var length: nat
    var overflowed: bool

    predicate Valid()
      reads this
    {
      encoded.Length == MAX_FRAME && length <= MAX_FRAME
    }

    function Contents(): State
      requires Valid()
      reads this, encoded
    {
      State(encoded[..length], overflowed)
    }

    constructor ()
      ensures Valid() && fresh(encoded) && Contents() == START
    {
      encoded := new byte[MAX_FRAME](_ => 0);
      length, overflowed := 0, false;
    }

    /** OtaParser_PushByte */
    method PushByte(b: byte) returns (e: Event)
      requires Valid()
      modifies this, encoded
      ensures Valid()
      ensures Contents() == NextState(old(Contents()), b)
      ensures e == EventAt(old(Contents()), b)
    {
      hide Deserialize, Cobs.Decode;
      if b != 0 {
        if overflowed { return Nothing; }
        if length >= MAX_FRAME {
          overflowed := true;
          return Nothing;
        }
        encoded[length] := b;
        length := length + 1;
        return Nothing;
      }
      if length == 0 && !overflowed { return Nothing; }
      var frame, dropped := encoded[..length], overflowed;
      length, overflowed := 0, false;
      if dropped { return InvalidFrame; }
      var raw := new byte[MAX_RAW_SIZE];
      var ok, n := Cobs.DecodeInto(frame, raw);
      if !ok { return InvalidFrame; }
      match Deserialize(raw[..n])
      case Ok(p) => return Received(p);
      case BadCrc => return ChecksumError;
      case _ => return InvalidFrame;
    }

    /** A whole stream, byte by byte. */
    method PushAll(stream: seq<byte>) returns (events: seq<Event>)
      requires Valid()
      modifies this, encoded
      ensures Valid() && Contents() == After(old(Contents()), stream) && events == Events(old(Contents()), stream)
    {
      hide EventAt, NextState;
      events := [];
      ghost var start := Contents();
      for i := 0 to |stream|
        invariant Valid() && Contents() == After(start, stream[..i]) && events == Events(start, stream[..i])
      {
        var e := PushByte(stream[i]);
        assert stream[..i + 1][..i] == stream[..i];
        if e != Nothing { events := events + [e]; }
      }
      assert stream[..|stream|] == stream;
    }
  }
}
