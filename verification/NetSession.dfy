/** A session of the proxy as it runs: two connections, and handlers that read from one, write
    to the other and change the ciphers of both. */
module NetSession {
  import opened Bytes
  import opened NetWire
  import opened NetConnection
  import opened NetRouting
  import opened NetProxy
  import opened NetTransparency

  /** The route for packets from the client, as it is set up for every block server. */
  method ServerRoute(dump: bool) returns (route: PacketRoute<Handler>)
    ensures fresh(route)
    ensures forall t: u16 :: route.Matching(t) == Registered(dump, t)
  {
    route := new PacketRoute();
    route.Route(KIND_CIPHER, PRIORITY_HIGH, TakeKey);
    route.Route(KIND_CIPHER, PRIORITY_NORMAL, ForwardKey);
    assert KIND_CIPHER in route.items && route.items[KIND_CIPHER]
      == [Item(TakeKey, PRIORITY_HIGH), Item(ForwardKey, PRIORITY_NORMAL)];
    route.RouteMask(0xffff, PRIORITY_LOW, Fallback);
    if dump {
      route.RouteMask(0xffff, PRIORITY_HIGH, Dump);
    }
    forall t: u16
      ensures route.Matching(t) == Registered(dump, t)
    {
      MatchesAllButZero(t);
      var hits := MaskHits(route.masks, t);
      assert hits == if t == 0 then [] else
        [Item(Fallback, PRIORITY_LOW)] + (if dump then [Item(Dump, PRIORITY_HIGH)] else []);
    }
  }

  class Session {
    const ks: KeyStream
    const keys: Keys
    const server: Connection  // to the client, for which the proxy is the server
    const client: Connection  // to the server, for which it is the client
    const route: PacketRoute<Handler>
    var nonce: nat

    constructor (ks: KeyStream, keys: Keys, server: Connection, client: Connection, route: PacketRoute<Handler>)
      requires server.ks == client.ks == ks
      requires server != client && server.stream != client.stream
      ensures Valid()
      ensures this.ks == ks && this.keys == keys && this.server == server && this.client == client
      ensures this.route == route && nonce == 0
    {
      this.ks, this.keys, this.server, this.client, this.route := ks, keys, server, client, route;
      nonce := 0;
    }

    ghost predicate Valid() {
      server.ks == client.ks == ks && server != client && server.stream != client.stream
    }

    function Link(): Link
      reads this, server, client, client.stream
    {
      NetProxy.Link(server.icipher, server.ocipher, client.icipher, client.ocipher, client.stream.outgoing, nonce)
    }

    /** `HandlerIgnore(HandlerCipher)`: the client link takes the key of the packet. */
    method TakeKeyOf(p: Packet) returns (o: Outcome)
      requires Valid()
      modifies server
      ensures (Link(), o) == Handle(ks, keys, TakeKey, old(Link()), p)
    {
      var key := SessionKey(keys.open, p);
      if key.Nothing? {
        return Outcome(false, true);
      }
      var ok := server.SetCipher(Some(key.value));
      o := Outcome(false, !ok);
    }

    /** `ProxyHandlerCipher`: the server gets the key in a packet under the old cipher, then the
        server link takes it. */
    method ForwardKeyOf(p: Packet) returns (o: Outcome, broken: bool)
      requires Valid()
      modifies this`nonce, client, client.stream`outgoing
      ensures !broken ==> (Link(), o) == Handle(ks, keys, ForwardKey, old(Link()), p)
    {
      broken := false;
      var key := SessionKey(keys.open, p);
      if key.Nothing? {
        return Outcome(false, true), false;
      }
      hide Sent, Resealed, SessionKey;
      var q := Resealed(keys, nonce, p);
      nonce := nonce + 1;
      var ok := client.WritePacket(q);
      if !ok {
        return Outcome(true, true), true;
      }
      ok := client.SetCipher(Some(key.value));
      o := Outcome(true, !ok);
    }

    /** Runs one handler; `broken` when the connection to the server takes no more. */
    method HandlePacket(h: Handler, p: Packet) returns (o: Outcome, broken: bool)
      requires Valid()
      modifies this`nonce, server, client, client.stream`outgoing
      ensures !broken ==> (Link(), o) == Handle(ks, keys, h, old(Link()), p)
      ensures broken ==> o.failed
    {
      broken := false;
      match h {
        case Dump => o := Outcome(false, false);
        case TakeKey => o := TakeKeyOf(p);
        case ForwardKey =>
          o, broken := ForwardKeyOf(p);
          if broken {
            o := Outcome(true, true);
          }
        case Fallback =>
          hide Sent;
          var ok := client.WritePacket(p);
          o, broken := Outcome(true, !ok), !ok;
      }
    }

    /** Routes one packet to its handlers. */
    method RoutePacket(p: Packet, ghost dump: bool) returns (o: Outcome, broken: bool)
      requires Valid() && forall t: u16 :: route.Matching(t) == Registered(dump, t)
      modifies this`nonce, server, client, client.stream`outgoing
      ensures broken ==> o.failed
      ensures !broken ==> var (next, ok) := ProxyStep(ks, keys, old(Link()), p);
        Link() == next && o.failed == !ok
    {
      hide Handle, Registered, Order, ProxyStep;
      var order := route.Ordered(p.kind);
      RoutingIsProxyStep(ks, keys, dump, order, Link(), p);
      o, broken := IGNORED, false;
      for i := 0 to |order|
        invariant Passes(o) && !broken
        invariant Dispatch(ks, keys, order, old(Link()), p) == Dispatch(ks, keys, order[i..], Link(), p)
      {
        DispatchStep(ks, keys, order[i..], Link(), p);
        assert order[i..][1..] == order[i + 1..];
        o, broken := HandlePacket(order[i].handler, p);
        if o.consumed || o.failed {
          return;
        }
      }
    }

    /** Routes packets from the client until there is an error, as `ProxyRun` does.  A read that
        fails may have moved the incoming cipher on; nothing else. */
    method RoutePackets(ghost dump: bool) returns (ended: End, broken: bool)
      requires Valid() && forall t: u16 :: route.Matching(t) == Registered(dump, t)
      modifies this`nonce, server, client, client.stream`outgoing, server.stream`incoming
      ensures !broken ==> var run := ProxyRun(ks, keys, old(Link()), old(server.stream.incoming));
        ended == run.ended && Link().(si := run.link.si) == run.link
    {
      ghost var run := ProxyRun(ks, keys, Link(), server.stream.incoming);
      broken := false;
      while true
        invariant ProxyRun(ks, keys, Link(), server.stream.incoming) == run && !broken
        decreases |server.stream.incoming|
      {
        hide Receive, ProxyStep, Registered;
        ghost var link, s := Link(), server.stream.incoming;
        ReceiveShrinks(ks, link.si, s);
        var r := server.ReadPacket();
        if r.ReadError? {
          return NoPacket(r.why), false;
        }
        assert Link() == link.(si := server.icipher);
        var o;
        o, broken := RoutePacket(r.packet, dump);
        if o.failed {
          return BadKey, broken;
        }
      }
    }
  }
}
