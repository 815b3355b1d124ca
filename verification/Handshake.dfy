/**
 * How a node declares itself to the hub, asks it for a relay and registers there, as a transition
 * system. Packets are never removed from the network: one that was sent may arrive at any time later,
 * any number of times, or never, which covers loss, duplication and reordering.
 */
module Handshake {
  import opened Types
  import Peers

  /** The hub, the nodes by address with their keys and names, the hash, and how a sender signs. */
  datatype Config = Config(
    hub: Addr,
    keys: map<Addr, Key>,
    names: map<Addr, string>,
    hash: Key -> PeerId,
    sign: (Addr, Message) -> seq<Byte>)
  {
    ghost predicate Valid() { hub !in keys && keys.Keys == names.Keys }
  }

  /** Where the main task of a node has got to. */
  datatype Phase =
    | Idle
    | Declaring(id: U64)
    | Asking
    | Registering(relay: Addr, name: string, id: U64)
    | Connected(relay: Addr, name: string)
    | Stopped

  datatype NodeState = NodeState(
    next: U64,
    phase: Phase,
    pending: set<U64>,
    signalled: set<U64>,
    answers: seq<Message>,  // the hub channel
    peers: PeerMap)

  datatype HubState = HubState(next: U64, relays: PeerMap)

  datatype State = State(hub: HubState, nodes: map<Addr, NodeState>, net: set<Packet>, now: U64)

  // ---------- messages ----------

  function NewPacket(cfg: Config, src: Addr, srcName: string, id: U64, dst: Addr, dstName: string, now: U64,
                     payload: Payload): Packet
  {
    var msg := Message(Headers(id, src, srcName, dst, dstName, now, []), payload, src);
    Packet(msg.(headers := msg.headers.(signature := cfg.sign(src, msg))), dst)
  }

  // ---------- what a node does ----------

  function NodePacket(cfg: Config, self: Addr, n: NodeState, now: U64, dst: Addr, dstName: string,
                      payload: Payload): Packet
    requires self in cfg.names
  {
    NewPacket(cfg, self, cfg.names[self], n.next, dst, dstName, now, payload)
  }

  predicate HasIds(next: U64, count: nat) { next + count < U64_SIZE }

  /** The dispatcher and the receive loop. */
  function NodeReceive(cfg: Config, self: Addr, n: NodeState, now: U64, m: Message): (NodeState, set<Packet>)
    requires self in cfg.names && HasIds(n.next, 1)
  {
    match m.payload
    case Ack(replyTo) =>
      if replyTo in n.pending
      then (n.(pending := n.pending - {replyTo}, signalled := n.signalled + {replyTo}), {})
      else (n, {})
    case PeerIs(_) => (n.(answers := n.answers + [m]), {})
    case NoRelayAvailable => (n.(answers := n.answers + [m]), {})
    case Register(key) =>
      var entry := PeerInfo(cfg.hash(key), m.headers.srcAddr, m.headers.srcUsername, now, false, key);
      (n.(next := n.next + 1, peers := Peers.Registered(n.peers, cfg.hash(key), entry)),
       {NodePacket(cfg, self, n, now, m.headers.srcAddr, m.headers.srcUsername, Ack(m.headers.msgId))})
    case RelayHasNewClient(addr, id) =>
      (n.(next := n.next + 1), {NodePacket(cfg, self, n, now, addr, id, PunchTheHole)})
    case _ => (n, {})
  }

  /** Sends BeNewRelay under a new id and waits for its Ack. */
  function Declare(cfg: Config, self: Addr, n: NodeState, now: U64): (NodeState, set<Packet>)
    requires self in cfg.names && self in cfg.keys && HasIds(n.next, 1)
  {
    (n.(next := n.next + 1, phase := Declaring(n.next), pending := n.pending + {n.next}),
     {NodePacket(cfg, self, n, now, cfg.hub, "hub", BeNewRelay(cfg.keys[self]))})
  }

  function AskForRelay(cfg: Config, self: Addr, n: NodeState, now: U64): (NodeState, set<Packet>)
    requires self in cfg.names && HasIds(n.next, 1)
  {
    (n.(next := n.next + 1, phase := Asking), {NodePacket(cfg, self, n, now, cfg.hub, "hub", NeedRelay)})
  }

  /** The signal that the main task waits for has come. */
  predicate Acknowledged(n: NodeState) {
    (n.phase.Declaring? || n.phase.Registering?) && n.phase.id in n.signalled
  }

  function Proceed(cfg: Config, self: Addr, n: NodeState, now: U64): (NodeState, set<Packet>)
    requires self in cfg.names && HasIds(n.next, 1) && Acknowledged(n)
  {
    if n.phase.Declaring? then AskForRelay(cfg, self, n, now)
    else (n.(phase := Connected(n.phase.relay, n.phase.name)), {})
  }

  /** Ten seconds without the signal. */
  function TimeOut(cfg: Config, self: Addr, n: NodeState, now: U64): (NodeState, set<Packet>)
    requires self in cfg.names && self in cfg.keys && HasIds(n.next, 1)
    requires n.phase.Declaring? || n.phase.Registering?
  {
    if n.phase.Declaring? then Declare(cfg, self, n, now) else (n.(phase := Stopped), {})
  }

  /** Takes one answer of the hub from the channel. */
  function TakeAnswer(cfg: Config, self: Addr, n: NodeState, now: U64): (NodeState, set<Packet>)
    requires self in cfg.names && self in cfg.keys && HasIds(n.next, 1)
    requires n.phase.Asking? && n.answers != []
  {
    var rest := n.(answers := n.answers[1..]);
    match n.answers[0].payload
    case PeerIs(info) =>
      (rest.(next := n.next + 1,
             phase := Registering(info.addr, info.username, n.next),
             pending := n.pending + {n.next}),
       {NodePacket(cfg, self, n, now, info.addr, info.username, Register(cfg.keys[self]))})
    case NoRelayAvailable => AskForRelay(cfg, self, rest, now)
    case _ => (rest.(phase := Stopped), {})
  }

  // ---------- what the hub does ----------

  function HubPacket(cfg: Config, id: U64, now: U64, dst: Addr, dstName: string, payload: Payload): Packet {
    NewPacket(cfg, cfg.hub, "hub", id, dst, dstName, now, payload)
  }

  predicate Offerable(relays: PeerMap, choice: PeerId, client: Addr) {
    choice in relays && relays[choice].addr != client
  }

  /** `choice` is the first suitable entry in the order of the map, whatever that is. */
  function HubReceive(cfg: Config, h: HubState, now: U64, m: Message, choice: PeerId): (HubState, set<Packet>)
    requires HasIds(h.next, 2)
  {
    var client, name := m.headers.srcAddr, m.headers.srcUsername;
    match m.payload
    case BeNewRelay(key) =>
      var entry := PeerInfo(cfg.hash(key), client, name, now, true, key);
      (HubState(h.next + 1, Peers.Registered(h.relays, cfg.hash(key), entry)),
       {HubPacket(cfg, h.next, now, client, name, Ack(m.headers.msgId))})
    case NeedRelay =>
      if Offerable(h.relays, choice, client) then
        var relay := h.relays[choice];
        (h.(next := h.next + 2),
         {HubPacket(cfg, h.next, now, relay.addr, relay.username, RelayHasNewClient(client, name)),
          HubPacket(cfg, h.next + 1, now, client, name, PeerIs(relay))})
      else (h.(next := h.next + 1), {HubPacket(cfg, h.next, now, client, name, NoRelayAvailable)})
    case _ => (h, {})
  }

  // ---------- steps and runs ----------

  datatype Move =
    | Begin
    | Wake                     // the awaited Ack was there in time
    | Expire                   // it was not
    | Take                     // an answer of the hub
    | Receive(packet: Packet)
    | Prune

  datatype Action =
    | ByNode(node: Addr, move: Move)
    | ByHub(packet: Packet, choice: PeerId)
    | PruneHub
    | Tick(later: U64)

  /** What move a node can make: it has ids left for what it may send, and the move is due. */
  ghost predicate CanMove(cfg: Config, s: State, a: Addr, move: Move) {
    && a in s.nodes && a in cfg.keys && a in cfg.names && HasIds(s.nodes[a].next, 1)
    && var n := s.nodes[a];
       match move
       case Begin => n.phase.Idle?
       case Wake => Acknowledged(n)
       case Expire => (n.phase.Declaring? || n.phase.Registering?) && !Acknowledged(n)
       case Take => n.phase.Asking? && n.answers != []
       case Receive(p) => p in s.net && p.dest == a
       case Prune => true
  }

  ghost function NodeDo(cfg: Config, s: State, a: Addr, move: Move): (NodeState, set<Packet>)
    requires CanMove(cfg, s, a, move)
  {
    match move
    case Begin => Declare(cfg, a, s.nodes[a], s.now)
    case Wake => Proceed(cfg, a, s.nodes[a], s.now)
    case Expire => TimeOut(cfg, a, s.nodes[a], s.now)
    case Take => TakeAnswer(cfg, a, s.nodes[a], s.now)
    case Receive(p) => NodeReceive(cfg, a, s.nodes[a], s.now, p.msg)
    case Prune => (s.nodes[a].(peers := Peers.Pruned(s.nodes[a].peers, s.now)), {})
  }

  ghost predicate Enabled(cfg: Config, s: State, act: Action) {
    match act
    case ByNode(a, move) => CanMove(cfg, s, a, move)
    case ByHub(p, choice) =>
      && p in s.net && p.dest == cfg.hub && HasIds(s.hub.next, 2)
      && (p.msg.payload.NeedRelay? && (exists id :: Offerable(s.hub.relays, id, p.msg.headers.srcAddr))
          ==> Offerable(s.hub.relays, choice, p.msg.headers.srcAddr))
    case PruneHub => true
    case Tick(later) => later >= s.now
  }

  ghost function Do(cfg: Config, s: State, act: Action): State
    requires Enabled(cfg, s, act)
  {
    match act
    case ByNode(a, move) =>
      var (n, sends) := NodeDo(cfg, s, a, move);
      s.(nodes := s.nodes[a := n], net := s.net + sends)
    case ByHub(p, choice) =>
      var (h, sends) := HubReceive(cfg, s.hub, s.now, p.msg, choice);
      s.(hub := h, net := s.net + sends)
    case PruneHub => s.(hub := s.hub.(relays := Peers.Pruned(s.hub.relays, s.now)))
    case Tick(later) => s.(now := later)
  }

  /** Nothing is under way yet; tables and counters are what the databases gave. */
  ghost predicate Init(cfg: Config, s: State) {
    && s.nodes.Keys == cfg.keys.Keys && s.net == {}
    && forall a <- s.nodes ::
         var n := s.nodes[a]; n.phase.Idle? && n.pending == {} && n.signalled == {} && n.answers == []
  }

  ghost predicate StepAt(cfg: Config, tr: seq<State>, acts: seq<Action>, i: nat) {
    i < |acts| && i + 1 < |tr| && Enabled(cfg, tr[i], acts[i]) && tr[i + 1] == Do(cfg, tr[i], acts[i])
  }

  /** The state before each action and after the last, and the actions. */
  ghost predicate Run(cfg: Config, tr: seq<State>, acts: seq<Action>) {
    && cfg.Valid() && |tr| == |acts| + 1 && Init(cfg, tr[0])
    && forall i: nat :: i < |acts| ==> StepAt(cfg, tr, acts, i)
  }

  // ---------- what a connected node may conclude ----------

  /** Step j: the hub answers the client's NeedRelay with a relay of this address and name in its table. */
  ghost predicate OfferAt(tr: seq<State>, acts: seq<Action>, j: nat, client: Addr, relay: Addr, name: string) {
    && j < |acts| && j < |tr| && acts[j].ByHub? && acts[j].packet.msg.payload.NeedRelay?
    && acts[j].packet.msg.headers.srcAddr == client
    && Offerable(tr[j].hub.relays, acts[j].choice, client)
    && tr[j].hub.relays[acts[j].choice].addr == relay
    && tr[j].hub.relays[acts[j].choice].username == name
  }

  /**
   * Step l: the node at the relay's address processes a Register of the client. The client's key hash
   * is then in its table, seen now, at the client's address unless an older entry kept its own.
   */
  ghost predicate RegisterAt(cfg: Config, tr: seq<State>, acts: seq<Action>, l: nat, client: Addr, relay: Addr) {
    && l < |acts| && l + 1 < |tr| && client in cfg.keys
    && acts[l].ByNode? && acts[l].move.Receive? && acts[l].node == relay
    && relay in tr[l].nodes && relay in tr[l + 1].nodes
    && acts[l].move.packet.msg.headers.srcAddr == client
    && acts[l].move.packet.msg.payload == Register(cfg.keys[client])
    && var before, after, id := tr[l].nodes[relay].peers, tr[l + 1].nodes[relay].peers, cfg.hash(cfg.keys[client]);
       && id in after && after[id].lastSeen == tr[l].now
       && after[id].addr == (if id in before then before[id].addr else client)
  }

  /** Step l: the hub processes a BeNewRelay of the node and has its key hash in the table of relays. */
  ghost predicate DeclareAt(cfg: Config, tr: seq<State>, acts: seq<Action>, l: nat, node: Addr) {
    && l < |acts| && l + 1 < |tr| && node in cfg.keys
    && acts[l].ByHub? && acts[l].packet.msg.headers.srcAddr == node
    && acts[l].packet.msg.payload == BeNewRelay(cfg.keys[node])
    && var before, after, id := tr[l].hub.relays, tr[l + 1].hub.relays, cfg.hash(cfg.keys[node]);
       && id in after && after[id].lastSeen == tr[l].now
       && after[id].addr == (if id in before then before[id].addr else node)
  }

  ghost predicate Declared(cfg: Config, tr: seq<State>, acts: seq<Action>, i: nat, node: Addr) {
    exists l: nat :: l < i && DeclareAt(cfg, tr, acts, l, node)
  }

  ghost predicate Offered(tr: seq<State>, acts: seq<Action>, i: nat, client: Addr, relay: Addr, name: string) {
    exists j: nat :: j < i && OfferAt(tr, acts, j, client, relay, name)
  }

  /** First an offer, then a registration with the relay offered, both before i. */
  ghost predicate Served(cfg: Config, tr: seq<State>, acts: seq<Action>, i: nat,
                         client: Addr, relay: Addr, name: string)
  {
    exists j: nat, l: nat :: j < l < i && OfferAt(tr, acts, j, client, relay, name)
                             && RegisterAt(cfg, tr, acts, l, client, relay)
  }
}
