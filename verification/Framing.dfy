/** Packet framing: an 8-byte header with a 24-bit size, then the payload, over a byte stream. */
module Framing {
  import opened Bytes
  import opened Collections

  datatype Header = Header(size: Bytes, msgType: byte, dejavu: u32)

  datatype Packet = Packet(msgType: byte, dejavu: u32, payload: Bytes)

  const U24 := 0x100_0000

  /** Builds a header: the size is added up in u32, and the low 24 bits of the total are kept. */
  function NewRequest(msgType: byte, payloadSize: nat, dejavu: u32): Header {
    assert Pow256(4) == 0x1_0000_0000;
    Header(LE((payloadSize + 8) % 0x1_0000_0000, 4)[..3], msgType, dejavu)
  }

  /** Total packet size; a size field of zero marks a broken packet. */
  function Size(h: Header): nat {
    if ValueLE(h.size) == 0 then 0xFFFF_FFFF else ValueLE(h.size)
  }

  function PayloadSize(h: Header): nat {
    Max(Size(h) - 8, 0)
  }

  lemma {:induction false} ThreeBytes(b: Bytes, x: int, y: int, z: int)
    requires b == [x, y, z]
    ensures ValueLE(b) == x + 256 * y + 65536 * z
  {
    assert b[1..] == [y, z] && [y, z][1..] == [z] && [z][1..] == [];
    assert ValueLE([z]) == z;
    assert ValueLE([y, z]) == y + 256 * ValueLE([z]);
  }

  lemma {:induction false} LowBytes(n: nat)
    requires n < 0x1_0000_0000
    ensures Pow256(4) == 0x1_0000_0000
    ensures ValueLE(LE(n, 4)[..3]) == n % U24
  {
    assert Pow256(4) == 0x1_0000_0000 && Pow256(3) == U24 && Pow256(2) == 65536 && Pow256(1) == 256;
    var x, y, z, w := n % 256, n / 256 % 256, n / 65536 % 256, n / U24;
    assert n / 256 / 256 == n / 65536 && n / 65536 / 256 == w;
    assert LE(w, 1) == [w];
    assert LE(n / 65536, 2) == [z] + LE(w, 1);
    assert LE(n / 256, 3) == [y] + LE(n / 65536, 2);
    assert LE(n, 4)[..3] == [x, y, z];
    ThreeBytes([x, y, z], x, y, z);
  }

  /** A header gives its payload size back exactly when the total fits in 24 bits. */
  lemma {:induction false} PayloadSizeIff(msgType: byte, p: nat, dejavu: u32)
    ensures PayloadSize(NewRequest(msgType, p, dejavu)) == p <==> p + 8 < U24
  {
    LowBytes((p + 8) % 0x1_0000_0000);
  }

  // ---------------------------------------------------------------- bytes on the wire

  function HeaderBytes(h: Header): Bytes {
    assert Pow256(4) == 0x1_0000_0000;
    h.size + [h.msgType] + LE(h.dejavu, 4)
  }

  function ParseHeader(b: Bytes): Header
    requires |b| == 8
  {
    ValueLEInverse(b[4..8]);
    assert Pow256(4) == 0x1_0000_0000;
    Header(b[..3], b[3], ValueLE(b[4..8]))
  }

  /** What `send_raw` writes. */
  function Frame(p: Packet): Bytes {
    HeaderBytes(NewRequest(p.msgType, |p.payload|, p.dejavu)) + p.payload
  }

  /** What `read_packet` takes off the front of a stream: nothing if the stream ends too early. */
  function Unframe(stream: Bytes): Option<(Packet, Bytes)> {
    if |stream| < 8 then None
    else
      var h := ParseHeader(stream[..8]);
      var n := PayloadSize(h);
      if |stream| < 8 + n then None
      else Some((Packet(h.msgType, h.dejavu, stream[8..8 + n]), stream[8 + n..]))
  }

  lemma {:induction false} HeaderRoundTrip(h: Header)
    requires |h.size| == 3
    ensures |HeaderBytes(h)| == 8 && ParseHeader(HeaderBytes(h)) == h
  {
    var b := HeaderBytes(h);
    assert Pow256(4) == 0x1_0000_0000;
    assert b[4..8] == LE(h.dejavu, 4) && b[..3] == h.size && b[3] == h.msgType;
    LEInverse(h.dejavu, 4);
  }

  /** One packet survives the wire, whatever follows it, exactly when its size fits in 24 bits. */
  lemma {:induction false} FrameRoundTripIff(p: Packet, rest: Bytes)
    ensures Unframe(Frame(p) + rest) == Some((p, rest)) <==> |p.payload| + 8 < U24
  {
    var h := NewRequest(p.msgType, |p.payload|, p.dejavu);
    var stream := Frame(p) + rest;
    HeaderRoundTrip(h);
    PayloadSizeIff(p.msgType, |p.payload|, p.dejavu);
    assert stream == HeaderBytes(h) + (p.payload + rest);
    assert stream[..8] == HeaderBytes(h);
    if |p.payload| + 8 < U24 {
      assert stream[8..8 + |p.payload|] == p.payload && stream[8 + |p.payload|..] == rest;
    }
  }

  /** The smallest payload that does not fit: the low 24 bits of its size are zero, the mark of a broken packet. */
  lemma {:induction false} BigPacketIsLost(msgType: byte, dejavu: u32, rest: Bytes)
    ensures var p := Packet(msgType, dejavu, seq(U24 - 8, _ => 0));
            Unframe(Frame(p) + rest) != Some((p, rest)) && Size(NewRequest(msgType, U24 - 8, dejavu)) == 0xFFFF_FFFF
  {
    FrameRoundTripIff(Packet(msgType, dejavu, seq(U24 - 8, _ => 0)), rest);
    LowBytes(U24);
  }

  ghost predicate Sendable(packets: seq<Packet>) {
    forall i :: 0 <= i < |packets| ==> |packets[i].payload| + 8 < U24
  }

  function FrameAll(packets: seq<Packet>): Bytes
    requires Sendable(packets)
  {
    if packets == [] then [] else Frame(packets[0]) + FrameAll(packets[1..])
  }

  /** Reading until the stream is exhausted or breaks off. */
  function UnframeAll(stream: Bytes): (r: (seq<Packet>, Bytes))
    decreases |stream|
  {
    match Unframe(stream)
    case None => ([], stream)
    case Some((p, rest)) =>
      var (ps, left) := UnframeAll(rest);
      ([p] + ps, left)
  }

  lemma {:induction false} ReadOne(p: Packet, more: Bytes)
    requires |p.payload| + 8 < U24
    ensures UnframeAll(Frame(p) + more) == ([p] + UnframeAll(more).0, UnframeAll(more).1)
  {
    FrameRoundTripIff(p, more);
  }

  lemma {:induction false} FirstFrame(packets: seq<Packet>, rest: Bytes)
    requires Sendable(packets) && packets != []
    ensures FrameAll(packets) + rest == Frame(packets[0]) + (FrameAll(packets[1..]) + rest)
  {
  }

  /** Reading back the concatenated output gives exactly the packets, then whatever came after them. */
  lemma {:induction false} StreamRoundTrip(packets: seq<Packet>, rest: Bytes)
    requires Sendable(packets)
    ensures UnframeAll(FrameAll(packets) + rest) == (packets + UnframeAll(rest).0, UnframeAll(rest).1)
  {
    if packets == [] {
      assert FrameAll(packets) + rest == rest;
      assert packets + UnframeAll(rest).0 == UnframeAll(rest).0;
    } else {
      var p, ps := packets[0], packets[1..];
      StreamRoundTrip(ps, rest);
      FirstFrame(packets, rest);
      ReadOne(p, FrameAll(ps) + rest);
      HeadAndTail(packets, UnframeAll(rest).0);
    }
  }

  // ---------------------------------------------------------------- the stream object

  class Stream {
    var written: Bytes
    var incoming: Bytes

    constructor (incoming: Bytes)
      ensures this.incoming == incoming && written == []
    {
      this.incoming, written := incoming, [];
    }

    method SendRaw(msgType: byte, payload: Bytes, dejavu: u32)
      modifies this`written
      ensures written == old(written) + Frame(Packet(msgType, dejavu, payload))
    {
      var header := NewRequest(msgType, |payload|, dejavu);
      written := written + HeaderBytes(header);
      if payload != [] {
        written := written + payload;
      }
    }

    /** Takes `n` bytes off the stream, or fails and loses what was left. */
    method ReadExact(n: nat) returns (buf: Option<Bytes>)
      modifies this`incoming
      ensures n <= |old(incoming)| ==> buf == Some(old(incoming)[..n]) && incoming == old(incoming)[n..]
      ensures n > |old(incoming)| ==> buf == None && incoming == []
    {
      if n <= |incoming| {
        buf := Some(incoming[..n]);
        incoming := incoming[n..];
      } else {
        buf := None;
        incoming := [];
      }
    }

    method ReadPacket() returns (packet: Option<Packet>)
      modifies this`incoming
      ensures match Unframe(old(incoming))
              case Some((p, rest)) => packet == Some(p) && incoming == rest
              case None => packet == None && incoming == []
    {
      var header := ReadExact(8);
      if header.None? {
        return None;
      }
      var h := ParseHeader(header.value);
      var size := PayloadSize(h);
      var payload := Some([]);
      if size > 0 {
        payload := ReadExact(size);
      }
      if payload.None? {
        return None;
      }
      assert old(incoming)[8..8 + size] == payload.value;
      assert old(incoming)[8 + size..] == incoming;
      packet := Some(Packet(h.msgType, h.dejavu, payload.value));
    }
  }

  // ---------------------------------------------------------------- bytes, one by one

  /** The bytes of a frame: total size in three, type, dejavu in four, all little-endian, then the payload. */
  lemma {:induction false} FrameLayout(p: Packet)
    ensures var b := Frame(p);
            && |b| == 8 + |p.payload|
            && ValueLE(b[0..3]) == (|p.payload| + 8) % 0x1_0000_0000 % 0x100_0000
            && b[3] == p.msgType && ValueLE(b[4..8]) == p.dejavu && b[8..] == p.payload
  {
    var b := Frame(p);
    var size := (|p.payload| + 8) % 0x1_0000_0000;
    LowBytes(size);
    assert b[0..3] == LE(size, 4)[..3] && b[4..8] == LE(p.dejavu, 4);
    LEInverse(p.dejavu, 4);
  }

  /** The packet at the front of a stream: its size field counts the header; a size of 0 stands for 2^32 - 1. */
  lemma {:induction false} UnframeReads(stream: Bytes)
    ensures Unframe(stream) ==
            if |stream| < 8 then None
            else
              var size := if ValueLE(stream[0..3]) == 0 then 0xFFFF_FFFF else ValueLE(stream[0..3]);
              var end := if size < 8 then 8 else size;
              if |stream| < end then None
              else (ValueLEInverse(stream[4..8]); assert Pow256(4) == 0x1_0000_0000;
                    Some((Packet(stream[3], ValueLE(stream[4..8]), stream[8..end]), stream[end..])))
  {
    if |stream| >= 8 {
      assert stream[..8][..3] == stream[0..3] && stream[..8][4..8] == stream[4..8];
    }
  }
}
