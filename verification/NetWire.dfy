/** Packets on the wire: framing, and a stream cipher that both ends apply in step. */
module NetWire {
  import opened Bytes

  const MAX_PACKET_SIZE := 0x400_0000

  datatype Packet = Packet(kind: u16, flags: u16, data: seq<byte>)

  /** The keystream of RC4, left abstract: the byte at each position under each key. */
  type KeyStream = (seq<byte>, nat) -> byte

  /** One direction of a connection: in the clear, or so far into a keystream. */
  datatype Cipher = Clear | Keyed(key: seq<byte>, position: nat)

  /** Encryption and decryption are the same exclusive-or. */
  function XorKeyStream(ks: KeyStream, c: Cipher, s: seq<byte>): (r: seq<byte>)
    ensures |r| == |s|
  {
    if c.Clear? then s else seq(|s|, i requires 0 <= i < |s| => Xor(s[i], ks(c.key, c.position + i)))
  }

  function Advance(c: Cipher, n: nat): Cipher {
    if c.Clear? then c else c.(position := c.position + n)
  }

  lemma XorRoundTrip(ks: KeyStream, c: Cipher, s: seq<byte>)
    ensures XorKeyStream(ks, c, XorKeyStream(ks, c, s)) == s
  {
    if c.Keyed? {
      forall i | 0 <= i < |s|
        ensures XorKeyStream(ks, c, XorKeyStream(ks, c, s))[i] == s[i]
      {
        XorTwice(s[i], ks(c.key, c.position + i));
      }
    }
  }

  /** A stream may be run through the cipher in parts. */
  lemma XorInParts(ks: KeyStream, c: Cipher, s: seq<byte>, t: seq<byte>)
    ensures XorKeyStream(ks, c, s + t) == XorKeyStream(ks, c, s) + XorKeyStream(ks, Advance(c, |s|), t)
  {
    hide Xor;
  }

  /** The packet under its header: the size of both, its type and its flags. */
  function Frame(p: Packet): (s: seq<byte>)
    ensures |s| == 8 + |p.data|
  {
    LE32(Wrap32(8 + |p.data|)) + LE16(p.kind) + LE16(p.flags) + p.data
  }

  /** What is sent for a packet. */
  function Sent(ks: KeyStream, c: Cipher, p: Packet): (s: seq<byte>)
    ensures |s| == 8 + |p.data|
  {
    XorKeyStream(ks, c, Frame(p))
  }

  function AfterPacket(c: Cipher, p: Packet): Cipher {
    Advance(c, 8 + |p.data|)
  }

  datatype Failure = Closed | InvalidSize

  /** A packet with what follows it, or why there is none. */
  datatype Reception = Got(packet: Packet, rest: seq<byte>, cipher: Cipher) | Failed(why: Failure)

  /** Reading one packet: the header is decrypted first, and says how much more to read. */
  function Receive(ks: KeyStream, c: Cipher, s: seq<byte>): Reception {
    if |s| < 8 then Failed(Closed)
    else
      var header := XorKeyStream(ks, c, s[..8]);
      var size := Word32(header[..4]);
      if size < 8 || size > MAX_PACKET_SIZE then Failed(InvalidSize)
      else if |s| < size then Failed(Closed)
      else
        Got(Packet(Word16(header[4..6]), Word16(header[6..8]), XorKeyStream(ks, Advance(c, 8), s[8..size])),
            s[size..], Advance(c, size))
  }

  predicate Fits(p: Packet) {
    8 + |p.data| <= MAX_PACKET_SIZE
  }

  lemma FrameFields(p: Packet)
    ensures Word32(Frame(p)[..4]) == Wrap32(8 + |p.data|)
    ensures Word16(Frame(p)[4..6]) == p.kind && Word16(Frame(p)[6..8]) == p.flags
    ensures Frame(p)[8..] == p.data
  {
    assert Frame(p)[..4] == LE32(Wrap32(8 + |p.data|));
    Word32RoundTrip(Wrap32(8 + |p.data|));
    assert Frame(p)[4..6] == LE16(p.kind) && Frame(p)[6..8] == LE16(p.flags);
  }

  /** The receiver makes out the header of whatever was sent. */
  lemma HeaderReceived(ks: KeyStream, c: Cipher, p: Packet, rest: seq<byte>)
    ensures XorKeyStream(ks, c, (Sent(ks, c, p) + rest)[..8]) == Frame(p)[..8]
  {
    var f := Frame(p);
    hide Frame, Xor;
    XorInParts(ks, c, f[..8], f[8..]);
    assert f == f[..8] + f[8..];
    assert (Sent(ks, c, p) + rest)[..8] == XorKeyStream(ks, c, f[..8]);
    XorRoundTrip(ks, c, f[..8]);
  }

  lemma BodyReceived(ks: KeyStream, c: Cipher, p: Packet, rest: seq<byte>)
    ensures XorKeyStream(ks, Advance(c, 8), (Sent(ks, c, p) + rest)[8..8 + |p.data|]) == p.data
  {
    var f := Frame(p);
    FrameFields(p);
    hide Frame, Xor;
    XorInParts(ks, c, f[..8], f[8..]);
    assert f == f[..8] + f[8..];
    assert (Sent(ks, c, p) + rest)[8..8 + |p.data|] == XorKeyStream(ks, Advance(c, 8), p.data);
    XorRoundTrip(ks, Advance(c, 8), p.data);
  }

  /** A receiver whose cipher stands where the sender's stood gets the packet back, and its
      cipher ends where the sender's ends, if and only if the packet is not too long. */
  lemma PacketRoundTrip(ks: KeyStream, c: Cipher, p: Packet, rest: seq<byte>)
    ensures Receive(ks, c, Sent(ks, c, p) + rest) == Got(p, rest, AfterPacket(c, p))
      <==> 8 + |p.data| <= 0x400_0000
  {
    if Fits(p) {
      FittingReceived(ks, c, p, rest);
    } else {
      LongRefused(ks, c, p, rest);
    }
  }

  lemma FittingReceived(ks: KeyStream, c: Cipher, p: Packet, rest: seq<byte>)
    requires Fits(p)
    ensures Receive(ks, c, Sent(ks, c, p) + rest) == Got(p, rest, AfterPacket(c, p))
  {
    hide *;
    HeaderReceived(ks, c, p, rest);
    BodyReceived(ks, c, p, rest);
    ReceiveFitting(ks, c, p, rest, Sent(ks, c, p) + rest);
  }

  /** What is too long is not received as it was sent. */
  lemma LongRefused(ks: KeyStream, c: Cipher, p: Packet, rest: seq<byte>)
    requires !Fits(p)
    ensures var r := Receive(ks, c, Sent(ks, c, p) + rest); r.Got? ==> r.packet != p
  {
    var s := Sent(ks, c, p) + rest;
    HeaderReceived(ks, c, p, rest);
    FrameFields(p);
    hide Frame, Xor, Sent;
    var h := XorKeyStream(ks, c, s[..8]);
    assert h[..4] == Frame(p)[..4];
    var r := Receive(ks, c, s);
    assert r.Got? ==> |r.packet.data| <= MAX_PACKET_SIZE - 8;
  }

  lemma ReceiveFitting(ks: KeyStream, c: Cipher, p: Packet, rest: seq<byte>, s: seq<byte>)
    requires Fits(p) && s == Sent(ks, c, p) + rest
    requires XorKeyStream(ks, c, s[..8]) == Frame(p)[..8]
    requires XorKeyStream(ks, Advance(c, 8), s[8..8 + |p.data|]) == p.data
    ensures Receive(ks, c, s) == Got(p, rest, AfterPacket(c, p))
  {
    FrameFields(p);
    hide Frame, Xor, Sent, XorKeyStream;
    var h := XorKeyStream(ks, c, s[..8]);
    assert h[..4] == Frame(p)[..4] && h[4..6] == Frame(p)[4..6] && h[6..8] == Frame(p)[6..8];
  }

  // ----- Sequences of packets under one cipher

  function SentAll(ks: KeyStream, c: Cipher, ps: seq<Packet>): seq<byte>
    decreases |ps|
  {
    if ps == [] then [] else Sent(ks, c, ps[0]) + SentAll(ks, AfterPacket(c, ps[0]), ps[1..])
  }

  function AfterAll(c: Cipher, ps: seq<Packet>): Cipher
    decreases |ps|
  {
    if ps == [] then c else AfterAll(AfterPacket(c, ps[0]), ps[1..])
  }

  datatype Delivery = Delivery(packets: seq<Packet>, cipher: Cipher, why: Failure)

  /** Reading packets until there is an error. */
  function ReceiveAll(ks: KeyStream, c: Cipher, s: seq<byte>): Delivery
    decreases |s|
  {
    match Receive(ks, c, s)
    case Failed(why) => Delivery([], c, why)
    case Got(p, rest, next) =>
      var d := ReceiveAll(ks, next, rest);
      Delivery([p] + d.packets, d.cipher, d.why)
  }

  lemma ReceiveOneMore(ks: KeyStream, c: Cipher, s: seq<byte>, p: Packet, rest: seq<byte>, next: Cipher)
    requires Receive(ks, c, s) == Got(p, rest, next)
    ensures var d := ReceiveAll(ks, next, rest); ReceiveAll(ks, c, s) == Delivery([p] + d.packets, d.cipher, d.why)
  {
  }

  /** All packets arrive, in order, and the two keystreams end in step. */
  lemma {:induction false} PacketsRoundTrip(ks: KeyStream, c: Cipher, ps: seq<Packet>)
    requires forall p <- ps :: Fits(p)
    ensures ReceiveAll(ks, c, SentAll(ks, c, ps)) == Delivery(ps, AfterAll(c, ps), Closed)
    decreases |ps|
  {
    if ps != [] {
      hide Receive, ReceiveAll, Sent, AfterPacket, Fits;
      var next, rest := AfterPacket(c, ps[0]), SentAll(ks, AfterPacket(c, ps[0]), ps[1..]);
      FittingReceived(ks, c, ps[0], rest);
      PacketsRoundTrip(ks, next, ps[1..]);
      ReceiveOneMore(ks, c, Sent(ks, c, ps[0]) + rest, ps[0], rest, next);
      assert ps == [ps[0]] + ps[1..];
    }
  }
}
