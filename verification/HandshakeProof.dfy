/** The invariant behind the handshake: what every packet ever sent, and every node, can vouch for. */
module HandshakeProof {
  import opened Types
  import opened Handshake
  import HandshakePackets

  /** Packet q of this client carries this id. */
  predicate Bears(q: Packet, client: Addr, id: U64) {
    q.msg.headers.srcAddr == client && q.msg.headers.msgId == id
  }

  /** The packet was processed: a BeNewRelay by the hub, or a Register by the relay it was sent to. */
  ghost predicate ProcessedPacket(cfg: Config, tr: seq<State>, acts: seq<Action>, i: nat, client: Addr, q: Packet) {
    || (q.msg.payload.BeNewRelay? && Declared(cfg, tr, acts, i, client))
    || (q.msg.payload.Register? && Served(cfg, tr, acts, i, client, q.dest, q.msg.headers.dstUsername))
  }

  ghost predicate Processed(cfg: Config, tr: seq<State>, acts: seq<Action>, i: nat, client: Addr, id: U64)
    requires i < |tr|
  {
    exists q :: q in tr[i].net && Bears(q, client, id) && ProcessedPacket(cfg, tr, acts, i, client, q)
  }

  /** What a packet in the network vouches for. */
  ghost predicate Vouched(cfg: Config, tr: seq<State>, acts: seq<Action>, i: nat, p: Packet)
    requires i < |tr|
  {
    var src := p.msg.headers.srcAddr;
    match p.msg.payload
    case Register(key) =>
      src in cfg.keys && key == cfg.keys[src] && Offered(tr, acts, i, src, p.dest, p.msg.headers.dstUsername)
    case BeNewRelay(key) => src in cfg.keys && key == cfg.keys[src]
    case PeerIs(info) => Offered(tr, acts, i, p.dest, info.addr, info.username)
    case Ack(id) => Processed(cfg, tr, acts, i, p.dest, id)
    case _ => true
  }

  /** The id was given out by the sender's counter. */
  ghost predicate IdIssued(cfg: Config, s: State, p: Packet) {
    var src := p.msg.headers.srcAddr;
    if src == cfg.hub then p.msg.headers.msgId < s.hub.next
    else src in s.nodes && p.msg.headers.msgId < s.nodes[src].next
  }

  ghost predicate PacketOk(cfg: Config, tr: seq<State>, acts: seq<Action>, i: nat, p: Packet)
    requires i < |tr|
  {
    IdIssued(cfg, tr[i], p) && Vouched(cfg, tr, acts, i, p)
  }

  ghost predicate NodeOk(cfg: Config, tr: seq<State>, acts: seq<Action>, i: nat, a: Addr, n: NodeState)
    requires i < |tr|
  {
    && (forall m <- n.answers :: m.payload.PeerIs? ==>
          Offered(tr, acts, i, a, m.payload.info.addr, m.payload.info.username))
    && (forall id <- n.signalled :: Processed(cfg, tr, acts, i, a, id))
    && match n.phase
       case Idle => true
       case Declaring(id) => exists q :: q in tr[i].net && Bears(q, a, id) && q.msg.payload.BeNewRelay?
       case Asking => Declared(cfg, tr, acts, i, a)
       case Registering(relay, name, id) =>
         && Declared(cfg, tr, acts, i, a)
         && exists q :: q in tr[i].net && Bears(q, a, id) && q.msg.payload.Register?
                        && q.dest == relay && q.msg.headers.dstUsername == name
       case Connected(relay, name) => Declared(cfg, tr, acts, i, a) && Served(cfg, tr, acts, i, a, relay, name)
       case Stopped => true
  }

  /** An id of a sender names one packet. */
  ghost predicate IdsUnique(net: set<Packet>) {
    forall p <- net, q <- net :: Bears(p, q.msg.headers.srcAddr, q.msg.headers.msgId) ==> p == q
  }

  ghost predicate Inv(cfg: Config, tr: seq<State>, acts: seq<Action>, i: nat)
    requires i < |tr|
  {
    && tr[i].nodes.Keys == cfg.keys.Keys
    && (forall p <- tr[i].net :: PacketOk(cfg, tr, acts, i, p))
    && IdsUnique(tr[i].net)
    && (forall a <- tr[i].nodes :: NodeOk(cfg, tr, acts, i, a, tr[i].nodes[a]))
  }

  // ---------- time passes ----------

  lemma OfferedStays(tr: seq<State>, acts: seq<Action>, i: nat, client: Addr, relay: Addr, name: string)
    requires Offered(tr, acts, i, client, relay, name)
    ensures Offered(tr, acts, i + 1, client, relay, name)
  {}

  lemma ServedStays(cfg: Config, tr: seq<State>, acts: seq<Action>, i: nat, client: Addr, relay: Addr, name: string)
    requires Served(cfg, tr, acts, i, client, relay, name)
    ensures Served(cfg, tr, acts, i + 1, client, relay, name)
  {}

  lemma DeclaredStays(cfg: Config, tr: seq<State>, acts: seq<Action>, i: nat, node: Addr)
    requires Declared(cfg, tr, acts, i, node)
    ensures Declared(cfg, tr, acts, i + 1, node)
  {}

  lemma ProcessedStays(cfg: Config, tr: seq<State>, acts: seq<Action>, i: nat, client: Addr, id: U64)
    requires i + 1 < |tr| && tr[i].net <= tr[i + 1].net
    requires Processed(cfg, tr, acts, i, client, id)
    ensures Processed(cfg, tr, acts, i + 1, client, id)
  {
    var q :| q in tr[i].net && Bears(q, client, id) && ProcessedPacket(cfg, tr, acts, i, client, q);
    if q.msg.payload.Register? {
      ServedStays(cfg, tr, acts, i, client, q.dest, q.msg.headers.dstUsername);
    } else {
      DeclaredStays(cfg, tr, acts, i, client);
    }
    assert q in tr[i + 1].net && ProcessedPacket(cfg, tr, acts, i + 1, client, q);
  }

  /** Nothing was forgotten from one state to the next. */
  ghost predicate Grows(cfg: Config, s: State, t: State) {
    && s.net <= t.net && s.nodes.Keys == t.nodes.Keys && s.hub.next <= t.hub.next
    && forall a <- s.nodes :: s.nodes[a].next <= t.nodes[a].next
  }

  lemma PacketStaysOk(cfg: Config, tr: seq<State>, acts: seq<Action>, i: nat, p: Packet)
    requires i + 1 < |tr| && Grows(cfg, tr[i], tr[i + 1]) && PacketOk(cfg, tr, acts, i, p)
    ensures PacketOk(cfg, tr, acts, i + 1, p)
  {
    match p.msg.payload
    case Register(key) => OfferedStays(tr, acts, i, p.msg.headers.srcAddr, p.dest, p.msg.headers.dstUsername);
    case PeerIs(info) => OfferedStays(tr, acts, i, p.dest, info.addr, info.username);
    case Ack(id) => ProcessedStays(cfg, tr, acts, i, p.dest, id);
    case _ =>
  }

  lemma NodeStaysOk(cfg: Config, tr: seq<State>, acts: seq<Action>, i: nat, a: Addr, n: NodeState)
    requires i + 1 < |tr| && Grows(cfg, tr[i], tr[i + 1]) && NodeOk(cfg, tr, acts, i, a, n)
    ensures NodeOk(cfg, tr, acts, i + 1, a, n)
  {
    forall m | m in n.answers && m.payload.PeerIs?
      ensures Offered(tr, acts, i + 1, a, m.payload.info.addr, m.payload.info.username)
    {
      OfferedStays(tr, acts, i, a, m.payload.info.addr, m.payload.info.username);
    }
    forall id | id in n.signalled ensures Processed(cfg, tr, acts, i + 1, a, id) {
      ProcessedStays(cfg, tr, acts, i, a, id);
    }
    if n.phase.Asking? || n.phase.Registering? || n.phase.Connected? {
      DeclaredStays(cfg, tr, acts, i, a);
    }
    if n.phase.Connected? {
      ServedStays(cfg, tr, acts, i, a, n.phase.relay, n.phase.name);
    }
  }

  /** The packets sent are new ones of this sender, each under an id of its own. */
  ghost predicate NewOf(sends: set<Packet>, src: Addr, low: U64, high: U64) {
    && (forall p <- sends :: p.msg.headers.srcAddr == src && low <= p.msg.headers.msgId < high)
    && (forall p <- sends, q <- sends :: p.msg.headers.msgId == q.msg.headers.msgId ==> p == q)
  }

  lemma UniqueAfter(net: set<Packet>, sends: set<Packet>, src: Addr, low: U64, high: U64)
    requires IdsUnique(net) && NewOf(sends, src, low, high)
    requires forall p <- net :: p.msg.headers.srcAddr == src ==> p.msg.headers.msgId < low
    ensures IdsUnique(net + sends)
  {}

  // ---------- a node moves ----------

  /** Step i is this move, and nothing was forgotten in it. */
  ghost predicate Moves(cfg: Config, tr: seq<State>, acts: seq<Action>, i: nat, a: Addr, move: Move) {
    && i < |acts| && i + 1 < |tr| && acts[i] == ByNode(a, move)
    && CanMove(cfg, tr[i], a, move) && Grows(cfg, tr[i], tr[i + 1])
    && var (n, sends) := NodeDo(cfg, tr[i], a, move);
       tr[i + 1] == tr[i].(nodes := tr[i].nodes[a := n], net := tr[i].net + sends)
  }

  /** The moving node is in order afterwards, and what it sends is vouched for. */
  ghost predicate GoodMove(cfg: Config, tr: seq<State>, acts: seq<Action>, i: nat, a: Addr, move: Move)
    requires Moves(cfg, tr, acts, i, a, move)
  {
    && NodeOk(cfg, tr, acts, i + 1, a, NodeDo(cfg, tr[i], a, move).0)
    && forall p <- NodeDo(cfg, tr[i], a, move).1 :: Vouched(cfg, tr, acts, i + 1, p)
  }

  /** A move that sends nothing that needs vouching for, and gives the node nothing new. */
  lemma PlainMove(cfg: Config, tr: seq<State>, acts: seq<Action>, i: nat, a: Addr, move: Move)
    requires Moves(cfg, tr, acts, i, a, move) && NodeOk(cfg, tr, acts, i + 1, a, tr[i].nodes[a])
    requires
      var (n, sends) := NodeDo(cfg, tr[i], a, move);
      var was := tr[i].nodes[a];
      && (forall m <- n.answers :: m in was.answers || !m.payload.PeerIs?) && n.signalled == was.signalled
      && (n.phase == was.phase || n.phase.Stopped?)
      && forall p <- sends :: p.msg.payload.PunchTheHole? || p.msg.payload.NeedRelay?
    ensures GoodMove(cfg, tr, acts, i, a, move)
  {}

  lemma DeclareMove(cfg: Config, tr: seq<State>, acts: seq<Action>, i: nat, a: Addr, move: Move)
    requires Moves(cfg, tr, acts, i, a, move) && NodeOk(cfg, tr, acts, i + 1, a, tr[i].nodes[a])
    requires NodeDo(cfg, tr[i], a, move) == Declare(cfg, a, tr[i].nodes[a], tr[i].now)
    ensures GoodMove(cfg, tr, acts, i, a, move)
  {
    var q := NodePacket(cfg, a, tr[i].nodes[a], tr[i].now, cfg.hub, "hub", BeNewRelay(cfg.keys[a]));
    assert NodeDo(cfg, tr[i], a, move).1 == {q} && q in tr[i + 1].net && Bears(q, a, tr[i].nodes[a].next);
  }

  lemma ReceiveAckOrAnswer(cfg: Config, tr: seq<State>, acts: seq<Action>, i: nat, a: Addr, p: Packet)
    requires Moves(cfg, tr, acts, i, a, Receive(p)) && NodeOk(cfg, tr, acts, i + 1, a, tr[i].nodes[a])
    requires (p.msg.payload.Ack? || p.msg.payload.PeerIs?) && Vouched(cfg, tr, acts, i + 1, p)
    ensures GoodMove(cfg, tr, acts, i, a, Receive(p))
  {}

  lemma RegisterIsServed(cfg: Config, tr: seq<State>, acts: seq<Action>, i: nat, a: Addr, p: Packet)
    requires Moves(cfg, tr, acts, i, a, Receive(p)) && p.msg.payload.Register? && Vouched(cfg, tr, acts, i, p)
    ensures Served(cfg, tr, acts, i + 1, p.msg.headers.srcAddr, p.dest, p.msg.headers.dstUsername)
  {
    var client := p.msg.headers.srcAddr;
    var j: nat :| j < i && OfferAt(tr, acts, j, client, p.dest, p.msg.headers.dstUsername);
    assert RegisterAt(cfg, tr, acts, i, client, p.dest);
  }

  lemma ReceiveRegister(cfg: Config, tr: seq<State>, acts: seq<Action>, i: nat, a: Addr, p: Packet)
    requires Moves(cfg, tr, acts, i, a, Receive(p)) && NodeOk(cfg, tr, acts, i + 1, a, tr[i].nodes[a])
    requires p.msg.payload.Register? && Vouched(cfg, tr, acts, i, p)
    ensures GoodMove(cfg, tr, acts, i, a, Receive(p))
  {
    RegisterIsServed(cfg, tr, acts, i, a, p);
    assert p in tr[i + 1].net && Bears(p, p.msg.headers.srcAddr, p.msg.headers.msgId);
    assert Processed(cfg, tr, acts, i + 1, p.msg.headers.srcAddr, p.msg.headers.msgId);
  }

  lemma TakeOffer(cfg: Config, tr: seq<State>, acts: seq<Action>, i: nat, a: Addr)
    requires Moves(cfg, tr, acts, i, a, Take) && NodeOk(cfg, tr, acts, i + 1, a, tr[i].nodes[a])
    requires tr[i].nodes[a].answers[0].payload.PeerIs?
    ensures GoodMove(cfg, tr, acts, i, a, Take)
  {
    var m := tr[i].nodes[a].answers[0];
    assert m in tr[i].nodes[a].answers;
    var q := NodePacket(cfg, a, tr[i].nodes[a], tr[i].now, m.payload.info.addr, m.payload.info.username,
                        Register(cfg.keys[a]));
    assert NodeDo(cfg, tr[i], a, Take).1 == {q} && q in tr[i + 1].net && Bears(q, a, tr[i].nodes[a].next);
  }

  /** The Ack that wakes a node was for the very packet it waits for, so that one was processed. */
  lemma WakeIsEarned(cfg: Config, tr: seq<State>, acts: seq<Action>, i: nat, a: Addr, n: NodeState, q: Packet)
    requires i < |tr| && IdsUnique(tr[i].net) && NodeOk(cfg, tr, acts, i, a, n) && Acknowledged(n)
    requires q in tr[i].net && Bears(q, a, n.phase.id)
    ensures ProcessedPacket(cfg, tr, acts, i, a, q)
  {
    assert Processed(cfg, tr, acts, i, a, n.phase.id);
    var r :| r in tr[i].net && Bears(r, a, n.phase.id) && ProcessedPacket(cfg, tr, acts, i, a, r);
    assert q == r;
  }

  lemma WakeMove(cfg: Config, tr: seq<State>, acts: seq<Action>, i: nat, a: Addr)
    requires Moves(cfg, tr, acts, i, a, Wake) && NodeOk(cfg, tr, acts, i + 1, a, tr[i].nodes[a])
    requires IdsUnique(tr[i + 1].net)
    ensures GoodMove(cfg, tr, acts, i, a, Wake)
  {
    var n := tr[i].nodes[a];
    if n.phase.Registering? {
      var q :| q in tr[i + 1].net && Bears(q, a, n.phase.id) && q.msg.payload.Register?
               && q.dest == n.phase.relay && q.msg.headers.dstUsername == n.phase.name;
      WakeIsEarned(cfg, tr, acts, i + 1, a, n, q);
    } else {
      var q :| q in tr[i + 1].net && Bears(q, a, n.phase.id) && q.msg.payload.BeNewRelay?;
      WakeIsEarned(cfg, tr, acts, i + 1, a, n, q);
    }
  }

  lemma ReceiveIsGood(cfg: Config, tr: seq<State>, acts: seq<Action>, i: nat, a: Addr, p: Packet)
    requires Moves(cfg, tr, acts, i, a, Receive(p)) && NodeOk(cfg, tr, acts, i + 1, a, tr[i].nodes[a])
    requires Vouched(cfg, tr, acts, i, p) && Vouched(cfg, tr, acts, i + 1, p)
    ensures GoodMove(cfg, tr, acts, i, a, Receive(p))
  {
    match p.msg.payload
    case Ack(_) => ReceiveAckOrAnswer(cfg, tr, acts, i, a, p);
    case PeerIs(_) => ReceiveAckOrAnswer(cfg, tr, acts, i, a, p);
    case Register(_) => ReceiveRegister(cfg, tr, acts, i, a, p);
    case _ => PlainMove(cfg, tr, acts, i, a, Receive(p));
  }

  lemma MoveIsGood(cfg: Config, tr: seq<State>, acts: seq<Action>, i: nat, a: Addr, move: Move)
    requires Moves(cfg, tr, acts, i, a, move) && NodeOk(cfg, tr, acts, i + 1, a, tr[i].nodes[a])
    requires IdsUnique(tr[i + 1].net)
    requires move.Receive? ==> Vouched(cfg, tr, acts, i, move.packet) && Vouched(cfg, tr, acts, i + 1, move.packet)
    ensures GoodMove(cfg, tr, acts, i, a, move)
  {
    match move
    case Receive(p) => ReceiveIsGood(cfg, tr, acts, i, a, p);
    case Take =>
      if tr[i].nodes[a].answers[0].payload.PeerIs? { TakeOffer(cfg, tr, acts, i, a); }
      else { PlainMove(cfg, tr, acts, i, a, move); }
    case Wake => WakeMove(cfg, tr, acts, i, a);
    case Begin => DeclareMove(cfg, tr, acts, i, a, move);
    case Expire =>
      if tr[i].nodes[a].phase.Declaring? { DeclareMove(cfg, tr, acts, i, a, move); }
      else { PlainMove(cfg, tr, acts, i, a, move); }
    case Prune => PlainMove(cfg, tr, acts, i, a, move);
  }

  /** A move sends at most one packet, under the node's next id. */
  lemma SendsAreNew(cfg: Config, s: State, a: Addr, move: Move)
    requires CanMove(cfg, s, a, move)
    ensures var (n, sends) := NodeDo(cfg, s, a, move);
            s.nodes[a].next <= n.next && NewOf(sends, a, s.nodes[a].next, n.next)
  {}

  lemma IdsStayUnique(cfg: Config, tr: seq<State>, acts: seq<Action>, i: nat, a: Addr, move: Move)
    requires cfg.Valid() && Moves(cfg, tr, acts, i, a, move) && Inv(cfg, tr, acts, i)
    ensures IdsUnique(tr[i + 1].net)
  {
    SendsAreNew(cfg, tr[i], a, move);
    var (n, sends) := NodeDo(cfg, tr[i], a, move);
    forall p | p in tr[i].net && p.msg.headers.srcAddr == a ensures p.msg.headers.msgId < tr[i].nodes[a].next {
      assert PacketOk(cfg, tr, acts, i, p);
    }
    UniqueAfter(tr[i].net, sends, a, tr[i].nodes[a].next, n.next);
  }

  lemma MoveKeepsInv(cfg: Config, tr: seq<State>, acts: seq<Action>, i: nat, a: Addr, move: Move)
    requires cfg.Valid() && Moves(cfg, tr, acts, i, a, move) && Inv(cfg, tr, acts, i)
    ensures Inv(cfg, tr, acts, i + 1)
  {
    IdsStayUnique(cfg, tr, acts, i, a, move);
    SendsAreNew(cfg, tr[i], a, move);
    NodeStaysOk(cfg, tr, acts, i, a, tr[i].nodes[a]);
    if move.Receive? {
      PacketStaysOk(cfg, tr, acts, i, move.packet);
    }
    MoveIsGood(cfg, tr, acts, i, a, move);
    forall p | p in tr[i].net ensures PacketOk(cfg, tr, acts, i + 1, p) {
      PacketStaysOk(cfg, tr, acts, i, p);
    }
    forall b | b in tr[i].nodes && b != a ensures NodeOk(cfg, tr, acts, i + 1, b, tr[i].nodes[b]) {
      NodeStaysOk(cfg, tr, acts, i, b, tr[i].nodes[b]);
    }
  }

  // ---------- the hub, and time ----------

  lemma HubStep(cfg: Config, tr: seq<State>, acts: seq<Action>, i: nat, h: HubState, sends: set<Packet>)
    requires i + 1 < |tr| && Inv(cfg, tr, acts, i)
    requires tr[i + 1].nodes == tr[i].nodes && tr[i + 1].hub == h && tr[i + 1].net == tr[i].net + sends
    requires tr[i].hub.next <= h.next && NewOf(sends, cfg.hub, tr[i].hub.next, h.next)
    requires forall p <- sends :: Vouched(cfg, tr, acts, i + 1, p)
    ensures Inv(cfg, tr, acts, i + 1)
  {
    assert Grows(cfg, tr[i], tr[i + 1]);
    forall p | p in sends ensures PacketOk(cfg, tr, acts, i + 1, p) {}
    forall p | p in tr[i].net ensures PacketOk(cfg, tr, acts, i + 1, p) {
      PacketStaysOk(cfg, tr, acts, i, p);
    }
    UniqueAfter(tr[i].net, sends, cfg.hub, tr[i].hub.next, h.next);
    forall a | a in tr[i].nodes ensures NodeOk(cfg, tr, acts, i + 1, a, tr[i].nodes[a]) {
      NodeStaysOk(cfg, tr, acts, i, a, tr[i].nodes[a]);
    }
  }

  ghost predicate HubMoves(cfg: Config, tr: seq<State>, acts: seq<Action>, i: nat, p: Packet, choice: PeerId) {
    && i < |acts| && i + 1 < |tr| && acts[i] == ByHub(p, choice)
    && p in tr[i].net && HasIds(tr[i].hub.next, 2)
    && var (h, sends) := HubReceive(cfg, tr[i].hub, tr[i].now, p.msg, choice);
       tr[i + 1] == tr[i].(hub := h, net := tr[i].net + sends)
  }

  /** Whatever the hub sends in a step is vouched for. */
  lemma HubSendsAreGood(cfg: Config, tr: seq<State>, acts: seq<Action>, i: nat, p: Packet, choice: PeerId)
    requires HubMoves(cfg, tr, acts, i, p, choice) && Vouched(cfg, tr, acts, i, p)
    ensures forall q <- HubReceive(cfg, tr[i].hub, tr[i].now, p.msg, choice).1 :: Vouched(cfg, tr, acts, i + 1, q)
  {
    var client := p.msg.headers.srcAddr;
    if p.msg.payload.BeNewRelay? {
      assert DeclareAt(cfg, tr, acts, i, client);
      assert p in tr[i + 1].net && Bears(p, client, p.msg.headers.msgId);
      assert ProcessedPacket(cfg, tr, acts, i + 1, client, p);
    } else if p.msg.payload.NeedRelay? && Offerable(tr[i].hub.relays, choice, client) {
      var relay := tr[i].hub.relays[choice];
      assert OfferAt(tr, acts, i, client, relay.addr, relay.username);
    }
  }

  lemma HubKeepsInv(cfg: Config, tr: seq<State>, acts: seq<Action>, i: nat, p: Packet, choice: PeerId)
    requires HubMoves(cfg, tr, acts, i, p, choice) && Inv(cfg, tr, acts, i)
    ensures Inv(cfg, tr, acts, i + 1)
  {
    assert PacketOk(cfg, tr, acts, i, p);
    HubSendsAreGood(cfg, tr, acts, i, p, choice);
    var (h, sends) := HubReceive(cfg, tr[i].hub, tr[i].now, p.msg, choice);
    HubStep(cfg, tr, acts, i, h, sends);
  }

  lemma StepKeepsInv(cfg: Config, tr: seq<State>, acts: seq<Action>, i: nat)
    requires cfg.Valid() && StepAt(cfg, tr, acts, i) && Inv(cfg, tr, acts, i)
    ensures Inv(cfg, tr, acts, i + 1)
  {
    match acts[i]
    case ByNode(a, move) =>
      SendsAreNew(cfg, tr[i], a, move);
      MoveKeepsInv(cfg, tr, acts, i, a, move);
    case ByHub(p, choice) => HubKeepsInv(cfg, tr, acts, i, p, choice);
    case PruneHub => HubStep(cfg, tr, acts, i, tr[i + 1].hub, {});
    case Tick(later) => HubStep(cfg, tr, acts, i, tr[i].hub, {});
  }

  lemma InitInv(cfg: Config, tr: seq<State>, acts: seq<Action>)
    requires |tr| > 0 && Init(cfg, tr[0])
    ensures Inv(cfg, tr, acts, 0)
  {}

  lemma {:induction false} AlwaysInv(cfg: Config, tr: seq<State>, acts: seq<Action>, i: nat)
    requires Run(cfg, tr, acts) && i < |tr|
    ensures Inv(cfg, tr, acts, i)
  {
    if i == 0 {
      InitInv(cfg, tr, acts);
    } else {
      AlwaysInv(cfg, tr, acts, i - 1);
      StepKeepsInv(cfg, tr, acts, i - 1);
    }
  }

  // ---------- the theorem ----------

  /**
   * In every run, over a network that loses, doubles and reorders: a node that is connected to a relay
   * was offered it by the hub, which then had a relay of that address and name in its table; the
   * address is not the node's own; the relay was sent the node's address and name; and after that, but
   * before the node was connected, the node at that address processed its Register and entered its key
   * in the peer table.
   */
  lemma ConnectedMeansServed(cfg: Config, tr: seq<State>, acts: seq<Action>, i: nat, client: Addr)
    returns (offer: nat, registration: nat)
    requires Run(cfg, tr, acts) && i < |tr|
    requires client in tr[i].nodes && tr[i].nodes[client].phase.Connected?
    ensures
      var relay, name := tr[i].nodes[client].phase.relay, tr[i].nodes[client].phase.name;
      && relay != client
      && offer < registration < i
      && OfferAt(tr, acts, offer, client, relay, name)
      && RegisterAt(cfg, tr, acts, registration, client, relay)
      && client in cfg.names
      && HandshakePackets.Sent(tr[offer + 1], cfg.hub, relay, RelayHasNewClient(client, cfg.names[client]))
  {
    AlwaysInv(cfg, tr, acts, i);
    assert NodeOk(cfg, tr, acts, i, client, tr[i].nodes[client]);
    var relay, name := tr[i].nodes[client].phase.relay, tr[i].nodes[client].phase.name;
    offer, registration :|
      offer < registration < i && OfferAt(tr, acts, offer, client, relay, name)
      && RegisterAt(cfg, tr, acts, registration, client, relay);
    assert StepAt(cfg, tr, acts, offer);
    HandshakePackets.OfferTellsBoth(cfg, tr, acts, offer, client, relay, name);
    AlwaysInv(cfg, tr, acts, offer);
    HandshakePackets.PacketsMean(cfg, tr, acts, offer);
    assert HandshakePackets.HeadersOk(cfg, tr[offer].now, acts[offer].packet);
  }

  /** A node that asks for a relay, registers or is connected was entered in the hub's table before. */
  lemma PastDeclaringMeansDeclared(cfg: Config, tr: seq<State>, acts: seq<Action>, i: nat, node: Addr)
    returns (declaration: nat)
    requires Run(cfg, tr, acts) && i < |tr| && node in tr[i].nodes
    requires var phase := tr[i].nodes[node].phase; phase.Asking? || phase.Registering? || phase.Connected?
    ensures declaration < i && DeclareAt(cfg, tr, acts, declaration, node)
  {
    AlwaysInv(cfg, tr, acts, i);
    assert NodeOk(cfg, tr, acts, i, node, tr[i].nodes[node]);
    declaration :| declaration < i && DeclareAt(cfg, tr, acts, declaration, node);
  }
}
