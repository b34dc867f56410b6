/** The client's direction of the proxy is transparent over whole runs: the server receives the
    client's packets, and the keystreams of both links stay in step with the peers. */
module NetTransparency {
  import opened Bytes
  import opened NetWire
  import opened NetRouting
  import opened NetProxy

  // ----- The peers

  /** A peer changes its key right after a cipher packet that it can open. */
  function AfterExchange(open: seq<byte> -> Maybe<seq<byte>>, c: Cipher, p: Packet): Cipher {
    if p.kind == KIND_CIPHER && SessionKey(open, p).Just? then Keyed(SessionKey(open, p).value, 0)
    else AfterPacket(c, p)
  }

  function ClientSent(ks: KeyStream, open: seq<byte> -> Maybe<seq<byte>>, c: Cipher, ps: seq<Packet>): seq<byte>
    decreases |ps|
  {
    if ps == [] then []
    else Sent(ks, c, ps[0]) + ClientSent(ks, open, AfterExchange(open, c, ps[0]), ps[1..])
  }

  function ClientCipher(open: seq<byte> -> Maybe<seq<byte>>, c: Cipher, ps: seq<Packet>): Cipher
    decreases |ps|
  {
    if ps == [] then c else ClientCipher(open, AfterExchange(open, c, ps[0]), ps[1..])
  }

  function ServerReceived(ks: KeyStream, open: seq<byte> -> Maybe<seq<byte>>, c: Cipher, s: seq<byte>): Delivery
    decreases |s|
  {
    match Receive(ks, c, s)
    case Failed(why) => Delivery([], c, why)
    case Got(p, rest, _) =>
      var d := ServerReceived(ks, open, AfterExchange(open, c, p), rest);
      Delivery([p] + d.packets, d.cipher, d.why)
  }

  // ----- The proxy

  /** How the client's direction ends: for want of a packet, or because a handler failed. */
  datatype Run = Run(link: Link, ended: End)
  datatype End = NoPacket(why: Failure) | BadKey

  /** Routing packets from the client until there is an error. */
  function ProxyRun(ks: KeyStream, keys: Keys, link: Link, s: seq<byte>): Run
    decreases |s|
  {
    match Receive(ks, link.si, s)
    case Failed(why) => Run(link, NoPacket(why))
    case Got(p, rest, cipher) =>
      var (next, ok) := ProxyStep(ks, keys, link.(si := cipher), p);
      if ok then ProxyRun(ks, keys, next, rest) else Run(next, BadKey)
  }

  /** A packet that the proxy gets through: not too long, and with a key it can open if it is a
      cipher packet. */
  predicate Proper(keys: Keys, p: Packet) {
    Fits(p) && (p.kind == KIND_CIPHER ==> SessionKey(keys.open, p).Just?)
  }

  predicate AllProper(keys: Keys, ps: seq<Packet>) {
    forall k :: 0 <= k < |ps| ==> Proper(keys, ps[k])
  }

  /** What becomes of a packet: type zero has no handler, and a key is sealed again. */
  function Through(keys: Keys, nonce: nat, p: Packet): seq<Packet>
    requires Proper(keys, p)
  {
    if p.kind == 0 then []
    else if p.kind == KIND_CIPHER then [Resealed(keys, nonce, p)]
    else [p]
  }

  function NextNonce(nonce: nat, p: Packet): nat {
    if p.kind == KIND_CIPHER then nonce + 1 else nonce
  }

  function NextCipher(keys: Keys, c: Cipher, p: Packet): Cipher {
    if p.kind == 0 then c else AfterExchange(keys.open, c, p)
  }

  /** What the server is to receive. */
  function Forwarded(keys: Keys, nonce: nat, ps: seq<Packet>): seq<Packet>
    requires AllProper(keys, ps)
    decreases |ps|
  {
    if ps == [] then []
    else Through(keys, nonce, ps[0]) + Forwarded(keys, NextNonce(nonce, ps[0]), ps[1..])
  }

  /** What the proxy sends for it, beginning under cipher `c`. */
  function ForwardedBytes(ks: KeyStream, keys: Keys, c: Cipher, nonce: nat, ps: seq<Packet>): seq<byte>
    requires AllProper(keys, ps)
    decreases |ps|
  {
    if ps == [] then []
    else
      SentAll(ks, c, Through(keys, nonce, ps[0]))
      + ForwardedBytes(ks, keys, NextCipher(keys, c, ps[0]), NextNonce(nonce, ps[0]), ps[1..])
  }

  /** The cipher of the server link after it. */
  function ForwardedCipher(keys: Keys, c: Cipher, ps: seq<Packet>): Cipher
    decreases |ps|
  {
    if ps == [] then c else ForwardedCipher(keys, NextCipher(keys, c, ps[0]), ps[1..])
  }

  /** One packet of the client on its way through the proxy. */
  lemma ProxyReadsPacket(ks: KeyStream, keys: Keys, link: Link, p: Packet, rest: seq<byte>)
    requires Proper(keys, p)
    ensures var (next, ok) := ProxyStep(ks, keys, link.(si := AfterPacket(link.si, p)), p);
      && ok
      && ProxyRun(ks, keys, link, Sent(ks, link.si, p) + rest) == ProxyRun(ks, keys, next, rest)
      && next.si == AfterExchange(keys.open, link.si, p)
      && next.co == NextCipher(keys, link.co, p)
      && next.nonce == NextNonce(link.nonce, p)
      && next.sent == link.sent + SentAll(ks, link.co, Through(keys, link.nonce, p))
  {
    PacketRoundTrip(ks, link.si, p, rest);
    hide Receive, Sent, Resealed, SessionKey, AfterPacket;
    assert forall q :: SentAll(ks, link.co, [q]) == Sent(ks, link.co, q) + SentAll(ks, AfterPacket(link.co, q), []);
  }

  /** The proxy reads the client's packets one by one, and ends in step with the client. */
  lemma {:induction false} ProxyReadsClient(ks: KeyStream, keys: Keys, link: Link, ps: seq<Packet>)
    requires AllProper(keys, ps)
    ensures var run := ProxyRun(ks, keys, link, ClientSent(ks, keys.open, link.si, ps));
      && run.ended == NoPacket(Closed)
      && run.link.si == ClientCipher(keys.open, link.si, ps)
      && run.link.sent == link.sent + ForwardedBytes(ks, keys, link.co, link.nonce, ps)
      && run.link.co == ForwardedCipher(keys, link.co, ps)
    decreases |ps|
  {
    hide ProxyRun, Sent, SentAll, AfterExchange, ProxyStep, Proper, Through, NextCipher, NextNonce;
    if ps != [] {
      var p := ps[0];
      var rest := ClientSent(ks, keys.open, AfterExchange(keys.open, link.si, p), ps[1..]);
      ProxyReadsPacket(ks, keys, link, p, rest);
      var next := ProxyStep(ks, keys, link.(si := AfterPacket(link.si, p)), p).0;
      ProxyReadsClient(ks, keys, next, ps[1..]);
    } else {
      NothingRead(ks, keys, link);
    }
  }

  lemma NothingRead(ks: KeyStream, keys: Keys, link: Link)
    ensures ProxyRun(ks, keys, link, []) == Run(link, NoPacket(Closed)) && link.sent + [] == link.sent
  {
  }

  /** The server receives what goes through, and ends in step with the proxy. */
  lemma {:induction false} ServerReadsProxy(ks: KeyStream, keys: Keys, c: Cipher, nonce: nat, ps: seq<Packet>)
    requires Work(keys) && AllProper(keys, ps)
    ensures ServerReceived(ks, keys.serverOpen, c, ForwardedBytes(ks, keys, c, nonce, ps))
      == Delivery(Forwarded(keys, nonce, ps), ForwardedCipher(keys, c, ps), Closed)
    decreases |ps|
  {
    if ps != [] {
      hide Sent, SentAll, AfterExchange, Proper, Through, NextCipher, NextNonce, Receive, Work;
      var p := ps[0];
      var c', n' := NextCipher(keys, c, p), NextNonce(nonce, p);
      ServerReadsProxy(ks, keys, c', n', ps[1..]);
      ServerReadsPacket(ks, keys, c, nonce, p, ForwardedBytes(ks, keys, c', n', ps[1..]));
    } else {
      assert Receive(ks, c, []) == Failed(Closed);
    }
  }

  lemma ServerReadsPacket(ks: KeyStream, keys: Keys, c: Cipher, nonce: nat, p: Packet, rest: seq<byte>)
    requires Work(keys) && Proper(keys, p)
    ensures var d := ServerReceived(ks, keys.serverOpen, NextCipher(keys, c, p), rest);
      ServerReceived(ks, keys.serverOpen, c, SentAll(ks, c, Through(keys, nonce, p)) + rest)
      == Delivery(Through(keys, nonce, p) + d.packets, d.cipher, d.why)
  {
    hide Receive, Sent, AfterPacket, Resealed, SessionKey;
    if p.kind == 0 {
      assert [] + rest == rest;
      var d := ServerReceived(ks, keys.serverOpen, c, rest);
      assert [] + d.packets == d.packets;
    } else {
      var q := Through(keys, nonce, p)[0];
      if p.kind == KIND_CIPHER {
        SameSessionKey(keys, nonce, p);
      }
      assert Through(keys, nonce, p) == [q];
      assert SentAll(ks, c, [q]) == Sent(ks, c, q) + SentAll(ks, AfterPacket(c, q), []) == Sent(ks, c, q);
      PacketRoundTrip(ks, c, q, rest);
      assert AfterExchange(keys.serverOpen, c, q) == NextCipher(keys, c, p);
    }
  }

  /** Transparency, for every run of proper packets with any number of key changes: the server
      receives what goes through, and on both links the two ends are in step at the end, hence
      after every packet. */
  lemma Transparency(ks: KeyStream, keys: Keys, link: Link, ps: seq<Packet>)
    requires Work(keys) && AllProper(keys, ps)
    ensures var run := ProxyRun(ks, keys, link, ClientSent(ks, keys.open, link.si, ps));
      && run.ended == NoPacket(Closed)
      && run.link.si == ClientCipher(keys.open, link.si, ps)
      && link.sent <= run.link.sent
      && ServerReceived(ks, keys.serverOpen, link.co, run.link.sent[|link.sent|..])
         == Delivery(Forwarded(keys, link.nonce, ps), run.link.co, Closed)
  {
    hide ProxyRun, ServerReceived, Forwarded, ForwardedBytes, ForwardedCipher, ClientSent, ClientCipher, Work;
    ProxyReadsClient(ks, keys, link, ps);
    ServerReadsProxy(ks, keys, link.co, link.nonce, ps);
    var bytes := ForwardedBytes(ks, keys, link.co, link.nonce, ps);
    assert (link.sent + bytes)[|link.sent|..] == bytes;
  }

  /** The server's packet for one of the client's: the same, or a cipher packet with the same
      key and the same padding. */
  ghost predicate Matches(keys: Keys, p: Packet, q: Packet) {
    if p.kind == KIND_CIPHER then
      && q.kind == KIND_CIPHER && q.flags == 0
      && SessionKey(keys.serverOpen, q) == SessionKey(keys.open, p)
      && |p.data| >= CIPHER_SIZE == |q.data| && q.data[KEY_SIZE..] == p.data[KEY_SIZE..CIPHER_SIZE]
    else q == p
  }

  lemma {:induction false} ForwardedLength(keys: Keys, nonce: nat, ps: seq<Packet>)
    requires AllProper(keys, ps)
    ensures |Forwarded(keys, nonce, ps)| <= |ps|
    ensures |Forwarded(keys, nonce, ps)| == |ps| <==> forall k :: 0 <= k < |ps| ==> ps[k].kind != 0
    decreases |ps|
  {
    hide Proper, Resealed;
    if ps != [] {
      ForwardedLength(keys, NextNonce(nonce, ps[0]), ps[1..]);
      assert (forall k :: 0 <= k < |ps| ==> ps[k].kind != 0)
        <==> (ps[0].kind != 0 && forall k :: 0 <= k < |ps[1..]| ==> ps[1..][k].kind != 0) by {
        assert forall k :: 0 < k < |ps| ==> ps[k] == ps[1..][k - 1];
      }
    }
  }

  /** The packet sequence is preserved, packet by packet, if and only if no type is zero. */
  lemma {:induction false} SequencePreserved(keys: Keys, nonce: nat, ps: seq<Packet>)
    requires Work(keys) && AllProper(keys, ps)
    ensures var qs := Forwarded(keys, nonce, ps);
      (|qs| == |ps| && forall k :: 0 <= k < |ps| ==> Matches(keys, ps[k], qs[k]))
      <==> forall k :: 0 <= k < |ps| ==> ps[k].kind != 0
    decreases |ps|
  {
    ForwardedLength(keys, nonce, ps);
    hide Proper, Resealed, Work, SessionKey;
    if ps != [] && forall k :: 0 <= k < |ps| ==> ps[k].kind != 0 {
      SequencePreserved(keys, NextNonce(nonce, ps[0]), ps[1..]);
      ForwardedLength(keys, NextNonce(nonce, ps[0]), ps[1..]);
      OneMatches(keys, nonce, ps[0]);
      var qs := Forwarded(keys, nonce, ps);
      hide Matches;
      forall k | 0 <= k < |ps|
        ensures Matches(keys, ps[k], qs[k])
      {
        if k > 0 {
          assert Matches(keys, ps[1..][k - 1], Forwarded(keys, NextNonce(nonce, ps[0]), ps[1..])[k - 1]);
        }
      }
    }
  }

  lemma OneMatches(keys: Keys, nonce: nat, p: Packet)
    requires Work(keys) && Proper(keys, p) && p.kind != 0
    ensures |Through(keys, nonce, p)| == 1 && Matches(keys, p, Through(keys, nonce, p)[0])
  {
    if p.kind == KIND_CIPHER {
      SameSessionKey(keys, nonce, p);
    }
  }

  // ----- The other direction and the order of the handlers do not matter

  /** What the client's direction uses of the links.  The other direction moves the rest. */
  ghost predicate Agree(a: Link, b: Link) {
    a.si == b.si && a.co == b.co && a.sent == b.sent && a.nonce == b.nonce
  }

  /** Whatever the other direction has made of its two ciphers before a handler is called. */
  type Noise = nat -> (Cipher, Cipher)

  function Disturbed(link: Link, noise: (Cipher, Cipher)): Link {
    link.(so := noise.0, ci := noise.1)
  }

  function NoisyDispatch(ks: KeyStream, keys: Keys, order: seq<Item<Handler>>, link: Link, p: Packet, noise: Noise,
                         j: nat): (Link, Outcome)
    decreases |order|
  {
    if order == [] then (link, IGNORED)
    else
      var (next, o) := Handle(ks, keys, order[0].handler, Disturbed(link, noise(j)), p);
      if Passes(o) then NoisyDispatch(ks, keys, order[1..], next, p, noise, j + 1) else (next, o)
  }

  lemma HandlersAgree(ks: KeyStream, keys: Keys, h: Handler, a: Link, b: Link, p: Packet)
    requires Agree(a, b)
    ensures var (a', o) := Handle(ks, keys, h, a, p);
      var (b', o') := Handle(ks, keys, h, b, p);
      Agree(a', b') && o == o'
  {
  }

  lemma {:induction false} NoiseIsHarmless(ks: KeyStream, keys: Keys, order: seq<Item<Handler>>, a: Link, b: Link,
                                           p: Packet, noise: Noise, j: nat)
    requires Agree(a, b)
    ensures var (a', o) := NoisyDispatch(ks, keys, order, a, p, noise, j);
      var (b', o') := Dispatch(ks, keys, order, b, p);
      Agree(a', b') && o == o'
    decreases |order|
  {
    if order != [] {
      hide Handle;
      var disturbed := Disturbed(a, noise(j));
      HandlersAgree(ks, keys, order[0].handler, disturbed, b, p);
      var (a', o) := Handle(ks, keys, order[0].handler, disturbed, p);
      var (b', _) := Handle(ks, keys, order[0].handler, b, p);
      if Passes(o) {
        NoiseIsHarmless(ks, keys, order[1..], a', b', p, noise, j + 1);
      }
    }
  }

  /** A schedule: for the i-th packet, in which order equals are called, and the noise. */
  datatype Schedule = Schedule(order: (nat, u16) -> seq<Item<Handler>>, noise: nat -> Noise)

  ghost predicate Admissible(schedule: Schedule, dump: bool) {
    forall i: nat, t: u16 {:trigger schedule.order(i, t)} :: Order(schedule.order(i, t), Registered(dump, t))
  }

  /** The client's direction as it really runs, under a schedule. */
  function ScheduledRun(ks: KeyStream, keys: Keys, link: Link, s: seq<byte>, schedule: Schedule, i: nat): Run
    decreases |s|
  {
    match Receive(ks, link.si, s)
    case Failed(why) => Run(link, NoPacket(why))
    case Got(p, rest, cipher) =>
      var (next, o) := NoisyDispatch(ks, keys, schedule.order(i, p.kind), link.(si := cipher), p, schedule.noise(i), 0);
      if o.failed then Run(next, BadKey) else ScheduledRun(ks, keys, next, rest, schedule, i + 1)
  }

  /** Under every schedule the client's direction comes to the same. */
  lemma {:induction false} EveryScheduleAgrees(ks: KeyStream, keys: Keys, dump: bool, a: Link, b: Link, s: seq<byte>,
                                               schedule: Schedule, i: nat)
    requires Admissible(schedule, dump) && Agree(a, b)
    ensures var scheduled := ScheduledRun(ks, keys, a, s, schedule, i);
      var run := ProxyRun(ks, keys, b, s);
      scheduled.ended == run.ended && Agree(scheduled.link, run.link)
    decreases |s|
  {
    hide Receive, Dispatch, NoisyDispatch, ProxyStep, Order, Registered;
    var r := Receive(ks, a.si, s);
    if r.Got? {
      ReceiveShrinks(ks, a.si, s);
      var p := r.packet;
      var order := schedule.order(i, p.kind);
      var a', b' := a.(si := r.cipher), b.(si := r.cipher);
      NoiseIsHarmless(ks, keys, order, a', b', p, schedule.noise(i), 0);
      RoutingIsProxyStep(ks, keys, dump, order, b', p);
      var (a'', o) := NoisyDispatch(ks, keys, order, a', p, schedule.noise(i), 0);
      if !o.failed {
        EveryScheduleAgrees(ks, keys, dump, a'', ProxyStep(ks, keys, b', p).0, r.rest, schedule, i + 1);
      }
    }
  }

  lemma ReceiveShrinks(ks: KeyStream, c: Cipher, s: seq<byte>)
    ensures Receive(ks, c, s).Got? ==> |Receive(ks, c, s).rest| < |s|
  {
  }
}
