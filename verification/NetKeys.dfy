/** The change of keys, told from the bytes of a cipher packet: which half of which secret the
    two links and their peers end up with, and what the server is sent. */
module NetKeys {
  import opened Bytes
  import opened NetWire
  import opened NetRouting
  import opened NetProxy
  import opened NetTransparency

  /** `s` is the sealed part of a cipher packet: its first 0x80 bytes from the last to the first,
      of a packet that has them and 0x84 bytes more. */
  predicate SealedIn(p: Packet, s: seq<byte>) {
    && p.kind == 0x0b11 && |p.data| >= 0x104 && |s| == 0x80
    && forall i :: 0 <= i < 0x80 ==> s[i] == p.data[0x7f - i]
  }

  /** `q` is a cipher packet without flags, whose first 0x80 bytes are those of `e` from the last
      to the first, and whose others are those of `p`. */
  predicate Carries(q: Packet, e: seq<byte>, p: Packet)
    requires |p.data| >= 0x104
  {
    && q.kind == 0x0b11 && q.flags == 0 && |q.data| == 0x104
    && |e| == 0x80 && (forall i :: 0 <= i < 0x80 ==> q.data[i] == e[0x7f - i])
    && forall i :: 0x80 <= i < 0x104 ==> q.data[i] == p.data[i]
  }

  lemma SealedIsReverse(p: Packet, s: seq<byte>)
    requires SealedIn(p, s)
    ensures s == Reverse(p.data[..0x80])
  {
  }

  /** What whoever can open a cipher packet takes for the key: the second half of its secret, and
      nothing if that has not 0x20 bytes. */
  lemma KeyIsSecondHalf(open: seq<byte> -> Maybe<seq<byte>>, p: Packet, s: seq<byte>)
    requires SealedIn(p, s)
    ensures match open(s)
      case Nothing => SessionKey(open, p) == Nothing
      case Just(v) =>
        if |v| == 0x20 then
          && SessionKey(open, p).Just? && |SessionKey(open, p).value| == 0x10
          && forall i :: 0 <= i < 0x10 ==> SessionKey(open, p).value[i] == v[0x10 + i]
        else SessionKey(open, p) == Nothing
  {
    SealedIsReverse(p, s);
    hide Reverse;
  }

  /** Routing a cipher packet, in any order that sorting by priority can leave: when its secret
      opens to `a + b`, all four ciphers start over under `b`, and the server is sent, under the
      cipher there was, a packet that carries the resealed secret. */
  lemma KeyExchange(ks: KeyStream, keys: Keys, dump: bool, order: seq<Item<Handler>>, link: Link, p: Packet,
                    s: seq<byte>, a: seq<byte>, b: seq<byte>)
    returns (q: Packet)
    requires Order(order, Registered(dump, p.kind)) && SealedIn(p, s)
    requires |a| == |b| == 0x10 && keys.open(s) == Just(a + b)
    ensures var (next, o) := Dispatch(ks, keys, order, link, p);
      && !o.failed && o.consumed
      && next.si == next.so == next.ci == next.co == Keyed(b, 0)
      && next.sent == link.sent + Sent(ks, link.co, q)
    ensures match keys.seal(link.nonce, a + b)
      case Just(e) => |e| == 0x80 ==> Carries(q, e, p)
      case Nothing => true
  {
    KeyIsSecondHalf(keys.open, p, s);
    SealedIsReverse(p, s);
    RoutingIsProxyStep(ks, keys, dump, order, link, p);
    assert SessionKey(keys.open, p).value == b;
    q := Resealed(keys, link.nonce, p);
    ResealedCarries(keys, link.nonce, p, a + b);
  }

  lemma ResealedCarries(keys: Keys, nonce: nat, p: Packet, v: seq<byte>)
    requires SessionKey(keys.open, p).Just? && SecretOf(keys.open, p) == Just(v) && |p.data| >= 0x104
    ensures match keys.seal(nonce, v)
      case Just(e) => |e| == 0x80 ==> Carries(Resealed(keys, nonce, p), e, p)
      case Nothing => true
  {
    var q := Resealed(keys, nonce, p);
    assert forall i :: 0x80 <= i < 0x104 ==> q.data[i] == q.data[0x80..][i - 0x80];
  }

  /** A cipher packet that is too short, does not open, or opens to another length ends the
      session, and changes no cipher and sends nothing. */
  lemma BadKeyEnds(ks: KeyStream, keys: Keys, dump: bool, order: seq<Item<Handler>>, link: Link, p: Packet,
                   s: seq<byte>)
    requires Order(order, Registered(dump, p.kind)) && p.kind == 0x0b11
    requires |p.data| < 0x104
      || (SealedIn(p, s) && (keys.open(s).Nothing? || |keys.open(s).value| != 0x20))
    ensures Dispatch(ks, keys, order, link, p).0 == link && Dispatch(ks, keys, order, link, p).1.failed
  {
    if |p.data| >= 0x104 {
      KeyIsSecondHalf(keys.open, p, s);
    }
    RoutingIsProxyStep(ks, keys, dump, order, link, p);
  }

  /** The peers of the proxy, who can open their packet, start over under the same half. */
  lemma PeerChangesKey(open: seq<byte> -> Maybe<seq<byte>>, c: Cipher, p: Packet, s: seq<byte>, a: seq<byte>,
                       b: seq<byte>)
    requires SealedIn(p, s) && |a| == |b| == 0x10 && open(s) == Just(a + b)
    ensures AfterExchange(open, c, p) == Keyed(b, 0)
  {
    KeyIsSecondHalf(open, p, s);
    assert SessionKey(open, p).value == b;
  }

  /** Any other packet with a type is forwarded as it is, under the cipher there was, and moves
      that cipher on; one of type zero is dropped. */
  lemma OthersPass(ks: KeyStream, keys: Keys, dump: bool, order: seq<Item<Handler>>, link: Link, p: Packet)
    requires Order(order, Registered(dump, p.kind)) && p.kind != 0x0b11
    ensures var (next, o) := Dispatch(ks, keys, order, link, p);
      && !o.failed
      && (p.kind == 0 ==> next == link)
      && (p.kind != 0 ==> next == link.(sent := link.sent + Sent(ks, link.co, p), co := AfterPacket(link.co, p)))
  {
    RoutingIsProxyStep(ks, keys, dump, order, link, p);
  }
}
