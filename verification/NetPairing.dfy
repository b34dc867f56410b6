/** The connection map of the proxy, over all interleavings of any number of sessions. */
module NetPairing {
  type Conn = nat

  /** One of the two routing goroutines of a session. */
  datatype Worker = Unborn | Routing | Reporting | Gone

  /** How far `Proxy` has come for a session: its pair entered into the map, one or both routers
      started, so many reports received, its pair deleted. */
  datatype Phase = Entering | Paired | Started | Waiting(received: nat) | Returned

  datatype Session = Session(server: Conn, client: Conn, phase: Phase, serverWorker: Worker, clientWorker: Worker)

  datatype State = State(sessions: seq<Session>, connections: map<Conn, Conn>)

  /** A step of some goroutine.  The sections under the lock are single steps. */
  datatype Action =
    | Open(server: Conn, client: Conn)
    | Register(i: nat)
    | StartServer(i: nat)
    | StartClient(i: nat)
    | Stop(i: nat, atServer: bool)
    | Report(i: nat, atServer: bool)
    | Delete(i: nat)

  const INITIAL := State([], map[])

  predicate Owns(s: Session, c: Conn) {
    s.server == c || s.client == c
  }

  function WorkerOf(s: Session, server: bool): Worker {
    if server then s.serverWorker else s.clientWorker
  }

  function WithWorker(s: Session, server: bool, w: Worker): Session {
    if server then s.(serverWorker := w) else s.(clientWorker := w)
  }

  /** When a step can be taken.  Connections are fresh: no session has had them before. */
  predicate Enabled(st: State, a: Action) {
    match a
    case Open(server, client) =>
      server != client && forall s <- st.sessions :: !Owns(s, server) && !Owns(s, client)
    case Register(i) => i < |st.sessions| && st.sessions[i].phase == Entering
    case StartServer(i) => i < |st.sessions| && st.sessions[i].phase == Paired
    case StartClient(i) => i < |st.sessions| && st.sessions[i].phase == Started
    case Stop(i, server) => i < |st.sessions| && WorkerOf(st.sessions[i], server) == Routing
    case Report(i, server) =>
      && i < |st.sessions| && WorkerOf(st.sessions[i], server) == Reporting
      && st.sessions[i].phase.Waiting? && st.sessions[i].phase.received < 2
    case Delete(i) => i < |st.sessions| && st.sessions[i].phase == Waiting(2)
  }

  function Step(st: State, a: Action): State
    requires Enabled(st, a)
  {
    match a
    case Open(server, client) =>
      st.(sessions := st.sessions + [Session(server, client, Entering, Unborn, Unborn)])
    case Register(i) =>
      var s := st.sessions[i];
      State(st.sessions[i := s.(phase := Paired)], st.connections[s.server := s.client][s.client := s.server])
    case StartServer(i) =>
      var s := st.sessions[i];
      st.(sessions := st.sessions[i := s.(phase := Started, serverWorker := Routing)])
    case StartClient(i) =>
      var s := st.sessions[i];
      st.(sessions := st.sessions[i := s.(phase := Waiting(0), clientWorker := Routing)])
    case Stop(i, server) =>
      st.(sessions := st.sessions[i := WithWorker(st.sessions[i], server, Reporting)])
    case Report(i, server) =>
      var s := st.sessions[i];
      st.(sessions := st.sessions[i := WithWorker(s, server, Gone).(phase := Waiting(s.phase.received + 1))])
    case Delete(i) =>
      var s := st.sessions[i];
      State(st.sessions[i := s.(phase := Returned)], st.connections - {s.server, s.client})
  }

  /** `Destination`: zero value for a connection without a peer. */
  datatype Peer = NoPeer | Peer(conn: Conn)

  function PeerOf(st: State, c: Conn): Peer {
    if c in st.connections then Peer(st.connections[c]) else NoPeer
  }

  predicate Live(s: Session) {
    s.phase.Paired? || s.phase.Started? || s.phase.Waiting?
  }

  /** The workers of a session are as far as its phase says. */
  predicate Counted(s: Session) {
    match s.phase
    case Entering => s.serverWorker == Unborn && s.clientWorker == Unborn
    case Paired => s.serverWorker == Unborn && s.clientWorker == Unborn
    case Started => (s.serverWorker == Routing || s.serverWorker == Reporting) && s.clientWorker == Unborn
    case Waiting(n) =>
      && s.serverWorker != Unborn && s.clientWorker != Unborn
      && n == (if s.serverWorker == Gone then 1 else 0) + (if s.clientWorker == Gone then 1 else 0)
    case Returned => s.serverWorker == Gone && s.clientWorker == Gone
  }

  /** The map pairs the connections of exactly the live sessions. */
  ghost predicate MapsLive(st: State) {
    LivePaired(st) && OnlyLive(st)
  }

  ghost predicate LivePaired(st: State) {
    forall i :: 0 <= i < |st.sessions| && Live(st.sessions[i]) ==>
      && PeerOf(st, st.sessions[i].server) == Peer(st.sessions[i].client)
      && PeerOf(st, st.sessions[i].client) == Peer(st.sessions[i].server)
  }

  ghost predicate OnlyLive(st: State) {
    forall c :: c in st.connections ==> exists k: nat :: Held(st, k, c)
  }

  /** Session `k` is live and has connection `c`. */
  predicate Held(st: State, k: nat, c: Conn) {
    k < |st.sessions| && Live(st.sessions[k]) && Owns(st.sessions[k], c)
  }

  ghost predicate Distinct(st: State) {
    && (forall i :: 0 <= i < |st.sessions| ==> st.sessions[i].server != st.sessions[i].client)
    && forall i, j, c :: 0 <= i < j < |st.sessions| && Owns(st.sessions[i], c) ==> !Owns(st.sessions[j], c)
  }

  ghost predicate Invariant(st: State) {
    Distinct(st) && MapsLive(st) && forall k :: 0 <= k < |st.sessions| ==> Counted(st.sessions[k])
  }

  lemma StepKeepsDistinct(st: State, a: Action)
    requires Distinct(st) && Enabled(st, a)
    ensures Distinct(Step(st, a))
  {
    var next := Step(st, a);
    forall i, j, c | 0 <= i < j < |next.sessions| && Owns(next.sessions[i], c)
      ensures !Owns(next.sessions[j], c)
    {
      if j < |st.sessions| {
        assert Owns(st.sessions[i], c);
      }
    }
  }

  lemma StepKeepsCounted(st: State, a: Action)
    requires Enabled(st, a) && forall k :: 0 <= k < |st.sessions| ==> Counted(st.sessions[k])
    ensures forall k :: 0 <= k < |Step(st, a).sessions| ==> Counted(Step(st, a).sessions[k])
  {
    var next := Step(st, a);
    forall k | 0 <= k < |next.sessions|
      ensures Counted(next.sessions[k])
    {
      assert k < |st.sessions| ==> Counted(st.sessions[k]);
    }
  }

  lemma OthersOwn(st: State, i: nat, k: nat)
    requires Distinct(st) && i < |st.sessions| && k < |st.sessions| && i != k
    ensures !Owns(st.sessions[i], st.sessions[k].server) && !Owns(st.sessions[i], st.sessions[k].client)
  {
    assert Owns(st.sessions[k], st.sessions[k].server) && Owns(st.sessions[k], st.sessions[k].client);
  }

  /** The map after entering or deleting the pair of session `i`: nothing else has changed. */
  lemma OneSessionMoved(st: State, next: State, i: nat)
    requires Distinct(st) && MapsLive(st) && i < |st.sessions| == |next.sessions|
    requires forall k :: 0 <= k < |st.sessions| && k != i ==> next.sessions[k] == st.sessions[k]
    requires forall c :: !Owns(st.sessions[i], c) ==> PeerOf(next, c) == PeerOf(st, c)
    requires next.sessions[i].server == st.sessions[i].server && next.sessions[i].client == st.sessions[i].client
    requires if Live(next.sessions[i]) then
        && PeerOf(next, st.sessions[i].server) == Peer(st.sessions[i].client)
        && PeerOf(next, st.sessions[i].client) == Peer(st.sessions[i].server)
      else
        PeerOf(next, st.sessions[i].server) == PeerOf(next, st.sessions[i].client) == NoPeer
    ensures MapsLive(next)
  {
    forall k | 0 <= k < |next.sessions| && Live(next.sessions[k])
      ensures PeerOf(next, next.sessions[k].server) == Peer(next.sessions[k].client)
      ensures PeerOf(next, next.sessions[k].client) == Peer(next.sessions[k].server)
    {
      if k != i {
        OthersOwn(st, i, k);
      }
    }
    forall c | c in next.connections
      ensures exists k: nat :: Held(next, k, c)
    {
      if Owns(st.sessions[i], c) {
        assert Held(next, i, c);
      } else {
        assert PeerOf(st, c) == PeerOf(next, c);
        var k: nat :| Held(st, k, c);
        assert Held(next, k, c);
      }
    }
  }

  /** A session that is not live yet leaves the map as it is. */
  lemma SessionAdded(st: State, s: Session)
    requires MapsLive(st) && !Live(s)
    ensures MapsLive(st.(sessions := st.sessions + [s]))
  {
    hide Live, Owns, LivePaired;
    var next := st.(sessions := st.sessions + [s]);
    forall c | c in next.connections
      ensures exists k: nat :: Held(next, k, c)
    {
      var k: nat :| Held(st, k, c);
      assert Held(next, k, c);
    }
    assert LivePaired(next) by {
      hide OnlyLive;
      LiveStayPaired(st, s);
    }
  }

  lemma LiveStayPaired(st: State, s: Session)
    requires LivePaired(st) && !Live(s)
    ensures LivePaired(st.(sessions := st.sessions + [s]))
  {
    hide Live;
  }

  lemma OpenKeepsMap(st: State, a: Action)
    requires MapsLive(st) && a.Open? && Enabled(st, a)
    ensures MapsLive(Step(st, a))
  {
    hide MapsLive;
    SessionAdded(st, Session(a.server, a.client, Entering, Unborn, Unborn));
  }

  lemma StepKeepsMap(st: State, a: Action)
    requires Distinct(st) && MapsLive(st) && Enabled(st, a)
    ensures MapsLive(Step(st, a))
  {
    hide MapsLive, Distinct, Step, Enabled, Live, PeerOf;
    if a.Open? {
      OpenKeepsMap(st, a);
    } else {
      StepShape(st, a);
      TwoConnections(st, a.i);
      if Live(st.sessions[a.i]) {
        LivePeers(st, a.i);
      } else {
        NotMapped(st, a.i);
      }
      OneSessionMoved(st, Step(st, a), a.i);
    }
  }

  lemma TwoConnections(st: State, i: nat)
    requires Distinct(st) && i < |st.sessions|
    ensures st.sessions[i].server != st.sessions[i].client
  {
  }

  lemma LivePeers(st: State, i: nat)
    requires MapsLive(st) && i < |st.sessions| && Live(st.sessions[i])
    ensures PeerOf(st, st.sessions[i].server) == Peer(st.sessions[i].client)
    ensures PeerOf(st, st.sessions[i].client) == Peer(st.sessions[i].server)
  {
  }

  /** What a step of session `i` does to the sessions and the map. */
  lemma StepShape(st: State, a: Action)
    requires Enabled(st, a) && !a.Open?
    ensures var next := Step(st, a);
      && a.i < |st.sessions| == |next.sessions|
      && (forall k :: 0 <= k < |st.sessions| && k != a.i ==> next.sessions[k] == st.sessions[k])
      && (forall c :: !Owns(st.sessions[a.i], c) ==> PeerOf(next, c) == PeerOf(st, c))
      && var s := st.sessions[a.i];
        && next.sessions[a.i].server == s.server && next.sessions[a.i].client == s.client
        && match a
           case Register(_) =>
             && Live(next.sessions[a.i])
             && (s.server != s.client ==> PeerOf(next, s.server) == Peer(s.client))
             && PeerOf(next, s.client) == Peer(s.server)
           case Delete(_) =>
             !Live(next.sessions[a.i]) && PeerOf(next, s.server) == PeerOf(next, s.client) == NoPeer
           case _ =>
             && Live(next.sessions[a.i]) == Live(s)
             && PeerOf(next, s.server) == PeerOf(st, s.server)
             && PeerOf(next, s.client) == PeerOf(st, s.client)
  {
  }

  /** A session that is not live has no connection in the map. */
  lemma NotMapped(st: State, i: nat)
    requires Distinct(st) && MapsLive(st) && i < |st.sessions| && !Live(st.sessions[i])
    ensures PeerOf(st, st.sessions[i].server) == PeerOf(st, st.sessions[i].client) == NoPeer
  {
    forall c | Owns(st.sessions[i], c)
      ensures c !in st.connections
    {
      if c in st.connections {
        var k: nat :| Held(st, k, c);
        OneOwner(st, i, k, c);
        assert false;
      }
    }
  }

  lemma OneOwner(st: State, i: nat, k: nat, c: Conn)
    requires Distinct(st) && i < |st.sessions| && k < |st.sessions|
    requires Owns(st.sessions[i], c) && Owns(st.sessions[k], c)
    ensures i == k
  {
  }

  lemma StepKeepsInvariant(st: State, a: Action)
    requires Invariant(st) && Enabled(st, a)
    ensures Invariant(Step(st, a))
  {
    StepKeepsDistinct(st, a);
    StepKeepsCounted(st, a);
    StepKeepsMap(st, a);
  }

  /** A run, if each step could be taken when its turn came. */
  predicate Runs(st: State, actions: seq<Action>)
    decreases |actions|
  {
    actions == [] || (Enabled(st, actions[0]) && Runs(Step(st, actions[0]), actions[1..]))
  }

  function After(st: State, actions: seq<Action>): State
    requires Runs(st, actions)
    decreases |actions|
  {
    if actions == [] then st else After(Step(st, actions[0]), actions[1..])
  }

  lemma {:induction false} RunKeepsInvariant(st: State, actions: seq<Action>)
    requires Invariant(st) && Runs(st, actions)
    ensures Invariant(After(st, actions))
    decreases |actions|
  {
    if actions != [] {
      StepKeepsInvariant(st, actions[0]);
      hide Invariant, Step, Enabled;
      RunKeepsInvariant(Step(st, actions[0]), actions[1..]);
    }
  }

  /** In every reachable state the map is an involution without fixed points. */
  lemma MapIsInvolution(actions: seq<Action>, c: Conn)
    requires Runs(INITIAL, actions)
    ensures var m := After(INITIAL, actions).connections;
      c in m ==> m[c] != c && m[c] in m && m[m[c]] == c
  {
    RunKeepsInvariant(INITIAL, actions);
    var st := After(INITIAL, actions);
    if c in st.connections {
      var k: nat :| Held(st, k, c);
      var s := st.sessions[k];
      assert PeerOf(st, s.server) == Peer(s.client) && PeerOf(st, s.client) == Peer(s.server);
    }
  }

  /** Whenever a router of a session runs, and with it a handler, `Destination` gives it the
      other connection of its own session; and once `Proxy` has returned it gives nothing. */
  lemma RunningHandlersHavePeers(actions: seq<Action>, i: nat)
    requires Runs(INITIAL, actions) && i < |After(INITIAL, actions).sessions|
    ensures var st := After(INITIAL, actions);
      var s := st.sessions[i];
      && (s.serverWorker == Routing || s.clientWorker == Routing ==>
        PeerOf(st, s.server) == Peer(s.client) && PeerOf(st, s.client) == Peer(s.server))
      && (s.phase == Returned ==> PeerOf(st, s.server) == NoPeer && PeerOf(st, s.client) == NoPeer)
  {
    RunKeepsInvariant(INITIAL, actions);
    var st := After(INITIAL, actions);
    var s := st.sessions[i];
    assert Counted(s);
    if s.phase == Returned {
      NotMapped(st, i);
    }
  }

  /** The map as `Proxy` holds it.  Every method is a section under the lock. */
  class Proxy {
    var connections: map<Conn, Conn>

    constructor ()
      ensures connections == INITIAL.connections
    {
      connections := map[];
    }

    /** Enters the pair of a session: the step `Register`. */
    method Enter(server: Conn, client: Conn)
      modifies this
      ensures forall st: State, i: nat ::
        st.connections == old(connections) && Enabled(st, Register(i))
        && st.sessions[i].server == server && st.sessions[i].client == client
        ==> connections == Step(st, Register(i)).connections
    {
      connections := connections[server := client];
      connections := connections[client := server];
    }

    /** Deletes it again: the step `Delete`. */
    method Leave(server: Conn, client: Conn)
      modifies this
      ensures forall st: State, i: nat ::
        st.connections == old(connections) && Enabled(st, Delete(i))
        && st.sessions[i].server == server && st.sessions[i].client == client
        ==> connections == Step(st, Delete(i)).connections
    {
      connections := connections - {server};
      connections := connections - {client};
    }

    method Destination(c: Conn) returns (d: Peer)
      ensures forall st: State :: st.connections == connections ==> d == PeerOf(st, c)
    {
      d := if c in connections then Peer(connections[c]) else NoPeer;
    }
  }
}
