/** Packets on the wire, bit by bit: the frame in bytes, what the cipher makes of each bit, and
    which streams are received. */
module NetBytes {
  import opened Bytes
  import opened NetWire
  import opened NetRouting

  /** Bit `k` of a number. */
  predicate Bit(b: nat, k: nat) {
    b / Power2(k) % 2 == 1
  }

  /** The frame: size, type and flags with their lowest bytes first, and the data. */
  lemma FrameBytes(p: Packet)
    requires |p.data| < 0x1_0000_0000 - 8
    ensures var f, size := Frame(p), |p.data| + 8;
      && |f| == size
      && f[0] as int + 0x100 * f[1] as int + 0x1_0000 * f[2] as int + 0x100_0000 * f[3] as int == size
      && f[4] as int + 0x100 * f[5] as int == p.kind
      && f[6] as int + 0x100 * f[7] as int == p.flags
      && f[8..] == p.data
  {
    FrameFields(p);
    var f := Frame(p);
    assert Wrap32(8 + |p.data|) == 8 + |p.data|;
    assert f[..4][0] == f[0] && f[..4][1] == f[1] && f[..4][2] == f[2] && f[..4][3] == f[3];
    assert f[4..6][0] == f[4] && f[4..6][1] == f[5] && f[6..8][0] == f[6] && f[6..8][1] == f[7];
  }

  /** What is sent under a key: bit `k` of byte `i` differs from that of the frame exactly where
      the keystream has it set, at the position of the cipher and `i` further. */
  lemma SentBits(ks: KeyStream, key: seq<byte>, position: nat, p: Packet, i: nat, k: nat)
    requires i < 8 + |p.data| && k < 8
    ensures var wire, frame := Sent(ks, Keyed(key, position), p), Frame(p);
      Bit(wire[i], k) != Bit(frame[i], k) <==> Bit(ks(key, position + i), k)
  {
    hide Frame, Xor;
    XorIsBitwise(Frame(p)[i], ks(key, position + i), k);
  }

  /** In the clear the frame is sent as it is. */
  lemma SentInTheClear(ks: KeyStream, p: Packet)
    ensures Sent(ks, Clear, p) == Frame(p)
  {
  }

  /** The cipher after a packet is as many bytes further. */
  lemma CipherMovesOn(key: seq<byte>, position: nat, p: Packet)
    ensures AfterPacket(Keyed(key, position), p) == Keyed(key, position + 8 + |p.data|)
    ensures AfterPacket(Clear, p) == Clear
  {
  }

  /** A stream in the clear, by its first bytes: refused by the size they say, cut short, or a
      packet of these fields. */
  lemma ReceivedInTheClear(ks: KeyStream, s: seq<byte>)
    ensures |s| < 8 ==> Receive(ks, Clear, s) == Failed(Closed)
    ensures |s| >= 8 ==>
      var size := s[0] as int + 0x100 * s[1] as int + 0x1_0000 * s[2] as int + 0x100_0000 * s[3] as int;
      Receive(ks, Clear, s)
      == if size < 8 || size > 0x400_0000 then Failed(InvalidSize)
         else if |s| < size then Failed(Closed)
         else Got(Packet(s[4] as int + 0x100 * s[5] as int, s[6] as int + 0x100 * s[7] as int, s[8..size]),
                  s[size..], Clear)
  {
    if |s| >= 8 {
      var h := s[..8];
      assert h[..4][0] == s[0] && h[..4][1] == s[1] && h[..4][2] == s[2] && h[..4][3] == s[3];
      assert h[4..6][0] == s[4] && h[4..6][1] == s[5] && h[6..8][0] == s[6] && h[6..8][1] == s[7];
    }
  }

  /** A stream under a key is received as its decryption is in the clear. */
  lemma ReceivedUnderKey(ks: KeyStream, key: seq<byte>, position: nat, s: seq<byte>)
    ensures var c := Keyed(key, position);
      match Receive(ks, Clear, XorKeyStream(ks, c, s))
      case Failed(why) => Receive(ks, c, s) == Failed(why)
      case Got(p, rest, _) =>
        && |rest| <= |s|
        && Receive(ks, c, s) == Got(p, s[|s| - |rest|..], Keyed(key, position + |s| - |rest|))
  {
    var c := Keyed(key, position);
    var t := XorKeyStream(ks, c, s);
    hide Xor;
    if |s| >= 8 {
      assert t[..8] == XorKeyStream(ks, c, s[..8]);
      var size := Word32(t[..8][..4]);
      if 8 <= size <= |s| {
        assert t[8..size] == XorKeyStream(ks, Advance(c, 8), s[8..size]);
      }
    }
  }

  /** A handler under a mask matches the types that have a bit in common with it. */
  lemma {:induction false} CommonBitAt(n: nat, a: nat, b: nat)
    ensures CommonBit(n, a, b) <==> exists k: nat :: k < n && Bit(a, k) && Bit(b, k)
  {
    if n > 0 {
      CommonBitAt(n - 1, a / 2, b / 2);
      forall k: nat
        ensures Bit(a, k + 1) <==> Bit(a / 2, k)
        ensures Bit(b, k + 1) <==> Bit(b / 2, k)
      {
        DivideTwice(a, Power2(k));
        DivideTwice(b, Power2(k));
      }
      assert Bit(a, 0) <==> a % 2 == 1;
      assert Bit(b, 0) <==> b % 2 == 1;
      if k: nat :| k < n && Bit(a, k) && Bit(b, k) {
        if k > 0 {
          var j: nat := k - 1;
          assert Bit(a, j + 1) && Bit(a / 2, j) && Bit(b / 2, j);
        }
      }
      if j: nat :| j < n - 1 && Bit(a / 2, j) && Bit(b / 2, j) {
        assert Bit(a, j + 1) && Bit(b, j + 1);
      }
    }
  }
}
