/** The proxy between a client and a server, seen from the client: every packet is forwarded,
    and both links change to the key of a cipher packet right after that packet. */
module NetProxy {
  import opened Bytes
  import opened NetWire
  import opened NetRouting

  const KIND_CIPHER: u16 := 0x0b11
  const KEY_SIZE := 0x80      // the sealed key in a cipher packet
  const CIPHER_SIZE := 0x104  // the key and the padding behind it
  const SECRET_SIZE := 0x20   // the opened key; RC4 takes its second half

  datatype Maybe<+T> = Nothing | Just(value: T)

  /** RSA, left abstract: opening with the private key of the proxy, sealing with the public key
      of the server (under a nonce), and opening by the server. */
  datatype Keys = Keys(open: seq<byte> -> Maybe<seq<byte>>,
                       seal: (nat, seq<byte>) -> Maybe<seq<byte>>,
                       serverOpen: seq<byte> -> Maybe<seq<byte>>)

  /** Sealing succeeds, and the server opens what was sealed. */
  ghost predicate Work(keys: Keys) {
    forall n: nat, v: seq<byte> {:trigger keys.seal(n, v)} :: |v| == SECRET_SIZE ==>
      match keys.seal(n, v)
      case Nothing => false
      case Just(e) => |e| == KEY_SIZE && keys.serverOpen(e) == Just(v)
  }

  function Reverse(s: seq<byte>): (r: seq<byte>)
    ensures |r| == |s|
    ensures forall i :: 0 <= i < |s| ==> r[i] == s[|s| - 1 - i]
  {
    if s == [] then [] else Reverse(s[1..]) + [s[0]]
  }

  lemma ReverseTwice(s: seq<byte>)
    ensures Reverse(Reverse(s)) == s
  {
  }

  /** The secret of a cipher packet, for whoever can open it. */
  function SecretOf(open: seq<byte> -> Maybe<seq<byte>>, p: Packet): Maybe<seq<byte>> {
    if |p.data| < CIPHER_SIZE then Nothing else open(Reverse(p.data[..KEY_SIZE]))
  }

  /** The RC4 key of a cipher packet. */
  function SessionKey(open: seq<byte> -> Maybe<seq<byte>>, p: Packet): (k: Maybe<seq<byte>>)
    ensures k.Just? ==> |k.value| == 0x10
  {
    match SecretOf(open, p)
    case Nothing => Nothing
    case Just(v) => if |v| == SECRET_SIZE then Just(v[0x10..]) else Nothing
  }

  /** The cipher packet for the server: flags and whatever followed the padding are gone, and a
      failure to seal would go unnoticed. */
  function Resealed(keys: Keys, nonce: nat, p: Packet): (q: Packet)
    requires SessionKey(keys.open, p).Just?
    ensures q.kind == KIND_CIPHER && q.flags == 0 && |q.data| == CIPHER_SIZE
    ensures q.data[KEY_SIZE..] == p.data[KEY_SIZE..CIPHER_SIZE]
  {
    var padding := p.data[KEY_SIZE..CIPHER_SIZE];
    match keys.seal(nonce, SecretOf(keys.open, p).value)
    case Just(e) =>
      if |e| == KEY_SIZE then Packet(KIND_CIPHER, 0, Reverse(e) + padding)
      else Packet(KIND_CIPHER, 0, p.data[..KEY_SIZE] + padding)
    case Nothing => Packet(KIND_CIPHER, 0, p.data[..KEY_SIZE] + padding)
  }

  /** The server makes out the same key. */
  lemma SameSessionKey(keys: Keys, nonce: nat, p: Packet)
    requires Work(keys) && SessionKey(keys.open, p).Just?
    ensures SessionKey(keys.serverOpen, Resealed(keys, nonce, p)) == SessionKey(keys.open, p)
  {
    var v := SecretOf(keys.open, p).value;
    var e := keys.seal(nonce, v).value;
    ReverseTwice(e);
    var q := Resealed(keys, nonce, p);
    assert q.data[..KEY_SIZE] == Reverse(e);
  }

  // ----- The handlers and the route of the client's direction

  datatype Handler = Dump | TakeKey | ForwardKey | Fallback

  /** The two links of a session: the ciphers of both directions of each, what has been sent to
      the server, and a counter for the randomness of sealing. */
  datatype Link = Link(si: Cipher, so: Cipher, ci: Cipher, co: Cipher, sent: seq<byte>, nonce: nat)

  function Send(ks: KeyStream, link: Link, p: Packet): Link {
    link.(sent := link.sent + Sent(ks, link.co, p), co := AfterPacket(link.co, p))
  }

  function Handle(ks: KeyStream, keys: Keys, h: Handler, link: Link, p: Packet): (r: (Link, Outcome)) {
    match h
    case Dump => (link, Outcome(false, false))
    case TakeKey =>
      (match SessionKey(keys.open, p)
       case Nothing => (link, Outcome(false, true))
       case Just(k) => (link.(si := Keyed(k, 0), so := Keyed(k, 0)), Outcome(false, false)))
    case ForwardKey =>
      (match SessionKey(keys.open, p)
       case Nothing => (link, Outcome(false, true))
       case Just(k) =>
         var after := Send(ks, link, Resealed(keys, link.nonce, p));
         (after.(ci := Keyed(k, 0), co := Keyed(k, 0), nonce := link.nonce + 1), Outcome(true, false)))
    case Fallback => (Send(ks, link, p), Outcome(true, false))
  }

  /** Calls handlers until one consumes or fails. */
  function Dispatch(ks: KeyStream, keys: Keys, order: seq<Item<Handler>>, link: Link, p: Packet): (Link, Outcome)
    decreases |order|
  {
    if order == [] then (link, IGNORED)
    else
      var (next, o) := Handle(ks, keys, order[0].handler, link, p);
      if Passes(o) then Dispatch(ks, keys, order[1..], next, p) else (next, o)
  }

  /** The handlers of a packet from the client, in the order of their registration. */
  function Registered(dump: bool, t: u16): seq<Item<Handler>> {
    (if t == 0 then [] else
       [Item(Fallback, PRIORITY_LOW)] + (if dump then [Item(Dump, PRIORITY_HIGH)] else []))
    + (if t == KIND_CIPHER then [Item(TakeKey, PRIORITY_HIGH), Item(ForwardKey, PRIORITY_NORMAL)] else [])
  }

  /** What the proxy does with a packet from the client; false when it gives the session up. */
  function ProxyStep(ks: KeyStream, keys: Keys, link: Link, p: Packet): (r: (Link, bool)) {
    if p.kind == 0 then (link, true)
    else if p.kind != KIND_CIPHER then (Send(ks, link, p), true)
    else
      match SessionKey(keys.open, p)
      case Nothing => (link, false)
      case Just(k) =>
        var after := Send(ks, link, Resealed(keys, link.nonce, p));
        (after.(si := Keyed(k, 0), so := Keyed(k, 0), ci := Keyed(k, 0), co := Keyed(k, 0),
                nonce := link.nonce + 1), true)
  }

  lemma DispatchStep(ks: KeyStream, keys: Keys, order: seq<Item<Handler>>, link: Link, p: Packet)
    requires order != []
    ensures var (next, o) := Handle(ks, keys, order[0].handler, link, p);
      Dispatch(ks, keys, order, link, p)
      == if Passes(o) then Dispatch(ks, keys, order[1..], next, p) else (next, o)
  {
  }

  const FORWARD_ANY := Item(Fallback, PRIORITY_LOW)
  const DUMP_ANY := Item(Dump, PRIORITY_HIGH)
  const TAKE_KEY := Item(TakeKey, PRIORITY_HIGH)
  const FORWARD_KEY := Item(ForwardKey, PRIORITY_NORMAL)

  /** The orders that sorting by priority can leave the handlers in: dumping comes first, or
      right after the key is taken. */
  predicate Possible(t: u16, order: seq<Item<Handler>>) {
    Core(t, order) || (order != [] && order[0] == DUMP_ANY && Core(t, order[1..]))
  }

  predicate Core(t: u16, order: seq<Item<Handler>>) {
    if t == 0 then order == []
    else if t != KIND_CIPHER then order == [FORWARD_ANY]
    else order == [TAKE_KEY, FORWARD_KEY, FORWARD_ANY] || order == [TAKE_KEY, DUMP_ANY, FORWARD_KEY, FORWARD_ANY]
  }

  lemma OrderIsPossible(dump: bool, t: u16, order: seq<Item<Handler>>)
    requires Order(order, Registered(dump, t))
    ensures Possible(t, order)
  {
    OrderLength(order, Registered(dump, t));
    RegisteredList(dump, t);
    hide *;
    if t == KIND_CIPHER {
      if dump {
        FourInOrder(order, DUMP_ANY, TAKE_KEY, FORWARD_KEY, FORWARD_ANY);
      } else {
        ThreeInOrder(order, TAKE_KEY, FORWARD_KEY, FORWARD_ANY);
      }
      CipherOrder(order);
    } else if t != 0 {
      if dump {
        TwoInOrder(order, DUMP_ANY, FORWARD_ANY);
      } else {
        assert order == [order[0]] && order[0] in multiset(order);
      }
      OtherOrder(t, order);
    } else {
      assert order == [];
      NoOrder(order);
    }
  }

  lemma CipherOrder(order: seq<Item<Handler>>)
    requires order == [TAKE_KEY, FORWARD_KEY, FORWARD_ANY]
      || (order == [DUMP_ANY, TAKE_KEY, FORWARD_KEY, FORWARD_ANY] && order[1..] == [TAKE_KEY, FORWARD_KEY, FORWARD_ANY])
      || order == [TAKE_KEY, DUMP_ANY, FORWARD_KEY, FORWARD_ANY]
    ensures Possible(KIND_CIPHER, order)
  {
  }

  lemma OtherOrder(t: u16, order: seq<Item<Handler>>)
    requires t != 0 && t != KIND_CIPHER
    requires order == [FORWARD_ANY] || (order == [DUMP_ANY, FORWARD_ANY] && order[1..] == [FORWARD_ANY])
    ensures Possible(t, order)
  {
  }

  lemma NoOrder(order: seq<Item<Handler>>)
    requires order == []
    ensures Possible(0, order)
  {
  }

  lemma RegisteredList(dump: bool, t: u16)
    ensures var m := Registered(dump, t);
      if t == 0 then |m| == 0
      else if t != KIND_CIPHER then
        if dump then |m| == 2 && multiset(m) == multiset{DUMP_ANY, FORWARD_ANY}
        else |m| == 1 && multiset(m) == multiset{FORWARD_ANY}
      else if !dump then |m| == 3 && multiset(m) == multiset{TAKE_KEY, FORWARD_KEY, FORWARD_ANY}
      else |m| == 4 && multiset(m) == multiset{DUMP_ANY, TAKE_KEY, FORWARD_KEY, FORWARD_ANY}
  {
    if t == KIND_CIPHER {
      RegisteredCipher(dump);
    } else if t != 0 {
      assert Registered(dump, t) == if dump then [FORWARD_ANY, DUMP_ANY] else [FORWARD_ANY];
    }
  }

  lemma RegisteredCipher(dump: bool)
    ensures var m := Registered(dump, KIND_CIPHER);
      if !dump then |m| == 3 && multiset(m) == multiset{TAKE_KEY, FORWARD_KEY, FORWARD_ANY}
      else |m| == 4 && multiset(m) == multiset{DUMP_ANY, TAKE_KEY, FORWARD_KEY, FORWARD_ANY}
  {
    var any := if dump then [FORWARD_ANY, DUMP_ANY] else [FORWARD_ANY];
    assert Registered(dump, KIND_CIPHER) == any + [TAKE_KEY, FORWARD_KEY];
    assert multiset([TAKE_KEY, FORWARD_KEY]) == multiset{TAKE_KEY, FORWARD_KEY};
    assert multiset(any) == if dump then multiset{FORWARD_ANY, DUMP_ANY} else multiset{FORWARD_ANY};
  }

  /** Whatever order the sorting leaves equals in, routing a packet does the proxy's step. */
  lemma RoutingIsProxyStep(ks: KeyStream, keys: Keys, dump: bool, order: seq<Item<Handler>>, link: Link, p: Packet)
    requires Order(order, Registered(dump, p.kind))
    ensures var (next, o) := Dispatch(ks, keys, order, link, p);
      var (expected, ok) := ProxyStep(ks, keys, link, p);
      next == expected && o.failed == !ok && (ok ==> o.consumed == (p.kind != 0))
  {
    OrderIsPossible(dump, p.kind, order);
    hide Order, Registered, Dispatch, ProxyStep, Core;
    if !Core(p.kind, order) {
      DumpFirst(ks, keys, order, link, p);
      PlainDispatch(ks, keys, order[1..], link, p);
    } else {
      PlainDispatch(ks, keys, order, link, p);
    }
  }

  lemma DumpFirst(ks: KeyStream, keys: Keys, order: seq<Item<Handler>>, link: Link, p: Packet)
    requires order != [] && order[0] == DUMP_ANY
    ensures Dispatch(ks, keys, order, link, p) == Dispatch(ks, keys, order[1..], link, p)
  {
  }

  lemma PlainDispatch(ks: KeyStream, keys: Keys, order: seq<Item<Handler>>, link: Link, p: Packet)
    requires Core(p.kind, order)
    ensures var (next, o) := Dispatch(ks, keys, order, link, p);
      var (expected, ok) := ProxyStep(ks, keys, link, p);
      next == expected && o.failed == !ok && (ok ==> o.consumed == (p.kind != 0))
  {
    if p.kind == KIND_CIPHER {
      hide Resealed, SessionKey, Sent;
      var (l1, o1) := Handle(ks, keys, TakeKey, link, p);
      DispatchStep(ks, keys, order, link, p);
      if Passes(o1) {
        DispatchStep(ks, keys, order[1..], l1, p);
        if order[1] == DUMP_ANY {
          DispatchStep(ks, keys, order[1..][1..], l1, p);
        }
      }
    }
  }

  lemma OrderLength(order: seq<Item<Handler>>, matching: seq<Item<Handler>>)
    requires Order(order, matching)
    ensures |order| == |matching| && Sorted(order) && multiset(order) == multiset(matching)
  {
    assert |multiset(order)| == |order| && |multiset(matching)| == |matching|;
  }

  lemma TwoInOrder(order: seq<Item<Handler>>, a: Item<Handler>, b: Item<Handler>)
    requires Sorted(order) && |order| == 2 && multiset(order) == multiset{a, b} && a.priority > b.priority
    ensures order == [a, b] && order[1..] == [b]
  {
    assert order == [order[0], order[1]];
    assert a in order && b in order;
  }

  lemma ThreeInOrder(order: seq<Item<Handler>>, a: Item<Handler>, b: Item<Handler>, c: Item<Handler>)
    requires Sorted(order) && |order| == 3 && multiset(order) == multiset{a, b, c}
    requires a.priority > b.priority > c.priority
    ensures order == [a, b, c]
  {
    assert order == [order[0], order[1], order[2]];
    assert a in order && b in order && c in order;
  }

  lemma FourInOrder(order: seq<Item<Handler>>, a: Item<Handler>, a': Item<Handler>, b: Item<Handler>, c: Item<Handler>)
    requires Sorted(order) && |order| == 4 && multiset(order) == multiset{a, a', b, c}
    requires a.priority == a'.priority > b.priority > c.priority && a != a'
    ensures (order == [a, a', b, c] && order[1..] == [a', b, c]) || order == [a', a, b, c]
  {
    assert order == [order[0], order[1], order[2], order[3]];
    assert a in order && a' in order && b in order && c in order;
  }
}
