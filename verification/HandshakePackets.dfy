/** What each packet of the handshake stands for, and what the steps of the hub and the nodes bring about. */
module HandshakePackets {
  import opened Types
  import opened Handshake
  import AckWait

  // ---------- what a step sends ----------

  ghost predicate Sent(s: State, src: Addr, dest: Addr, payload: Payload) {
    exists p :: p in s.net && p.msg.headers.srcAddr == src && p.dest == dest && p.msg.payload == payload
  }

  /** An offer tells the relay of the client, by its address and the name it gave, and the client of the relay. */
  lemma OfferTellsBoth(cfg: Config, tr: seq<State>, acts: seq<Action>, j: nat, client: Addr, relay: Addr, name: string)
    requires StepAt(cfg, tr, acts, j) && OfferAt(tr, acts, j, client, relay, name)
    ensures Sent(tr[j + 1], cfg.hub, relay, RelayHasNewClient(client, acts[j].packet.msg.headers.srcUsername))
    ensures Sent(tr[j + 1], cfg.hub, client, PeerIs(tr[j].hub.relays[acts[j].choice]))
  {
    var info, h := tr[j].hub.relays[acts[j].choice], tr[j].hub;
    var asked := acts[j].packet.msg.headers.srcUsername;
    var notice := HubPacket(cfg, h.next, tr[j].now, info.addr, info.username, RelayHasNewClient(client, asked));
    var offer := HubPacket(cfg, h.next + 1, tr[j].now, client, asked, PeerIs(info));
    assert notice in tr[j + 1].net && offer in tr[j + 1].net;
  }

  /** A relay that is told of a client sends a packet through its own NAT to that very client. */
  lemma NoticePunches(cfg: Config, tr: seq<State>, acts: seq<Action>, i: nat, client: Addr, name: string)
    requires StepAt(cfg, tr, acts, i) && acts[i].ByNode? && acts[i].move.Receive?
    requires acts[i].move.packet.msg.payload == RelayHasNewClient(client, name)
    ensures Sent(tr[i + 1], acts[i].node, client, PunchTheHole)
  {
    var a := acts[i].node;
    var p := NodePacket(cfg, a, tr[i].nodes[a], tr[i].now, client, name, PunchTheHole);
    assert p in tr[i + 1].net;
  }

  /** No Ack for ten seconds: a declaration is repeated under an id that is new, a registration is given up. */
  lemma ExpiryRepeatsOrGivesUp(cfg: Config, tr: seq<State>, acts: seq<Action>, i: nat)
    requires StepAt(cfg, tr, acts, i) && acts[i].ByNode? && acts[i].move.Expire?
    ensures var a := acts[i].node;
            match tr[i].nodes[a].phase
            case Declaring(_) =>
              && tr[i + 1].nodes[a].phase == Declaring(tr[i].nodes[a].next)
              && tr[i].nodes[a].next in tr[i + 1].nodes[a].pending
              && exists p :: p in tr[i + 1].net && p.dest == cfg.hub && p.msg.headers.srcAddr == a
                             && p.msg.headers.msgId == tr[i].nodes[a].next
                             && p.msg.payload == BeNewRelay(cfg.keys[a])
            case Registering(_, _, _) => tr[i + 1].nodes[a].phase.Stopped? && tr[i + 1].net == tr[i].net
            case _ => false
  {
    var a := acts[i].node;
    var p := NodePacket(cfg, a, tr[i].nodes[a], tr[i].now, cfg.hub, "hub", BeNewRelay(cfg.keys[a]));
    if tr[i].nodes[a].phase.Declaring? {
      assert p in tr[i + 1].net;
    }
  }

  /** Pruning keeps, unchanged, exactly the entries seen less than 120 seconds ago. */
  ghost predicate PrunedAt(before: PeerMap, after: PeerMap, now: U64) {
    && (forall id :: id in after <==> id in before && now - before[id].lastSeen < 120)
    && (forall id <- after :: after[id] == before[id])
  }

  lemma PruningIsExact(cfg: Config, tr: seq<State>, acts: seq<Action>, i: nat)
    requires StepAt(cfg, tr, acts, i)
    ensures acts[i].PruneHub? ==>
              PrunedAt(tr[i].hub.relays, tr[i + 1].hub.relays, tr[i].now) && tr[i + 1].nodes == tr[i].nodes
    ensures acts[i].ByNode? && acts[i].move.Prune? ==>
              var a := acts[i].node;
              && PrunedAt(tr[i].nodes[a].peers, tr[i + 1].nodes[a].peers, tr[i].now)
              && tr[i + 1].nodes[a] == tr[i].nodes[a].(peers := tr[i + 1].nodes[a].peers)
              && tr[i + 1].hub == tr[i].hub && tr[i + 1].net == tr[i].net
  {}

  /**
   * The waiting of a node is that of its ack waiter: an Ack signals the attempt that waits under its id,
   * which then waits no more, and an Ack for any other id does nothing.
   */
  lemma AckIsResolve(cfg: Config, self: Addr, n: NodeState, now: U64, m: Message, history: seq<AckWait.Event>)
    requires self in cfg.names && HasIds(n.next, 1) && m.payload.Ack?
    requires n.pending == AckWait.Pending(history).Keys
    ensures var (after, sends) := NodeReceive(cfg, self, n, now, m);
            var longer := history + [AckWait.Resolve(m.payload.replyTo)];
            && after.pending == AckWait.Pending(longer).Keys && sends == {}
            && after == n.(pending := after.pending, signalled := after.signalled)
            && after.signalled == n.signalled + (if |AckWait.Signals(longer)| > |AckWait.Signals(history)|
                                                 then {m.payload.replyTo} else {})
  {
    var longer := history + [AckWait.Resolve(m.payload.replyTo)];
    assert longer[..|longer| - 1] == history;
  }

  // ---------- what a packet stands for ----------

  /** The hub answered a request of the client, and its table had no entry at another address. */
  ghost predicate RefusalAt(tr: seq<State>, acts: seq<Action>, j: nat, client: Addr) {
    && j < |acts| && j < |tr| && acts[j].ByHub? && acts[j].packet.msg.payload.NeedRelay?
    && acts[j].packet.msg.headers.srcAddr == client
    && forall id <- tr[j].hub.relays :: tr[j].hub.relays[id].addr == client
  }

  ghost predicate RefusedBefore(tr: seq<State>, acts: seq<Action>, i: nat, client: Addr) {
    exists j: nat :: j < i && RefusalAt(tr, acts, j, client)
  }

  /** The hub offered this very entry to the client, which had asked under this name. */
  ghost predicate EntryOfferedAt(tr: seq<State>, acts: seq<Action>, j: nat, client: Addr, asked: string, entry: PeerInfo) {
    && OfferAt(tr, acts, j, client, entry.addr, entry.username)
    && tr[j].hub.relays[acts[j].choice] == entry && acts[j].packet.msg.headers.srcUsername == asked
  }

  ghost predicate EntryOffered(tr: seq<State>, acts: seq<Action>, i: nat, client: Addr, asked: string, entry: PeerInfo) {
    exists j: nat :: j < i && EntryOfferedAt(tr, acts, j, client, asked, entry)
  }

  /** Written by its sender, signed, addressed to where it goes, and not sent in the future. */
  ghost predicate HeadersOk(cfg: Config, now: U64, p: Packet) {
    var h := p.msg.headers;
    && h.dstAddr == p.dest && p.msg.lastHop == h.srcAddr && h.time <= now
    && (if h.srcAddr == cfg.hub then h.srcUsername == "hub"
        else h.srcAddr in cfg.names && h.srcUsername == cfg.names[h.srcAddr])
    && h.signature == cfg.sign(h.srcAddr, p.msg.(headers := h.(signature := [])))
  }

  ghost predicate PayloadOk(cfg: Config, tr: seq<State>, acts: seq<Action>, i: nat, p: Packet)
    requires i < |tr|
  {
    var src, to := p.msg.headers.srcAddr, p.msg.headers.dstUsername;
    match p.msg.payload
    case RelayHasNewClient(client, asked) =>
      src == cfg.hub && exists entry: PeerInfo ::
        entry.addr == p.dest && entry.username == to && EntryOffered(tr, acts, i, client, asked, entry)
    case PeerIs(entry) => src == cfg.hub && EntryOffered(tr, acts, i, p.dest, to, entry)
    case NoRelayAvailable => src == cfg.hub && RefusedBefore(tr, acts, i, p.dest)
    case PunchTheHole => Sent(tr[i], cfg.hub, src, RelayHasNewClient(p.dest, to))
    case BeNewRelay(_) => p.dest == cfg.hub
    case NeedRelay => p.dest == cfg.hub
    case Register(_) => true
    case Ack(_) => true
    case _ => false
  }

  ghost predicate AllOk(cfg: Config, tr: seq<State>, acts: seq<Action>, i: nat)
    requires i < |tr|
  {
    forall p <- tr[i].net :: HeadersOk(cfg, tr[i].now, p) && PayloadOk(cfg, tr, acts, i, p)
  }

  lemma OkStays(cfg: Config, tr: seq<State>, acts: seq<Action>, i: nat, p: Packet)
    requires i + 1 < |tr| && tr[i].net <= tr[i + 1].net && tr[i].now <= tr[i + 1].now
    requires HeadersOk(cfg, tr[i].now, p) && PayloadOk(cfg, tr, acts, i, p)
    ensures HeadersOk(cfg, tr[i + 1].now, p) && PayloadOk(cfg, tr, acts, i + 1, p)
  {
    match p.msg.payload
    case RelayHasNewClient(client, asked) =>
      var entry: PeerInfo :| entry.addr == p.dest && entry.username == p.msg.headers.dstUsername
                   && EntryOffered(tr, acts, i, client, asked, entry);
      OfferedStays(tr, acts, i, client, asked, entry);
    case PeerIs(entry) => OfferedStays(tr, acts, i, p.dest, p.msg.headers.dstUsername, entry);
    case NoRelayAvailable =>
      var j: nat :| j < i && RefusalAt(tr, acts, j, p.dest);
      assert j < i + 1;
    case PunchTheHole =>
      var notice := RelayHasNewClient(p.dest, p.msg.headers.dstUsername);
      var q :| q in tr[i].net && q.msg.headers.srcAddr == cfg.hub && q.dest == p.msg.headers.srcAddr && q.msg.payload == notice;
      assert q in tr[i + 1].net;
    case _ =>
  }

  lemma OfferedStays(tr: seq<State>, acts: seq<Action>, i: nat, client: Addr, asked: string, entry: PeerInfo)
    requires EntryOffered(tr, acts, i, client, asked, entry)
    ensures EntryOffered(tr, acts, i + 1, client, asked, entry)
  {
    var j: nat :| j < i && EntryOfferedAt(tr, acts, j, client, asked, entry);
    assert j < i + 1;
  }

  lemma HubSendsOk(cfg: Config, tr: seq<State>, acts: seq<Action>, i: nat, p: Packet)
    requires StepAt(cfg, tr, acts, i) && acts[i].ByHub?
    requires p in HubReceive(cfg, tr[i].hub, tr[i].now, acts[i].packet.msg, acts[i].choice).1
    ensures HeadersOk(cfg, tr[i + 1].now, p) && PayloadOk(cfg, tr, acts, i + 1, p)
  {
    var m := acts[i].packet.msg;
    if m.payload.NeedRelay? {
      var client, asked := m.headers.srcAddr, m.headers.srcUsername;
      if Offerable(tr[i].hub.relays, acts[i].choice, client) {
        var entry := tr[i].hub.relays[acts[i].choice];
        assert EntryOfferedAt(tr, acts, i, client, asked, entry);
        assert EntryOffered(tr, acts, i + 1, client, asked, entry);
      } else {
        forall id | id in tr[i].hub.relays ensures tr[i].hub.relays[id].addr == client {
          assert !Offerable(tr[i].hub.relays, id, client);
        }
        assert RefusalAt(tr, acts, i, client);
      }
    }
  }

  lemma NodeHeadersOk(cfg: Config, s: State, a: Addr, move: Move, p: Packet)
    requires cfg.Valid() && CanMove(cfg, s, a, move) && p in NodeDo(cfg, s, a, move).1
    ensures HeadersOk(cfg, s.now, p)
  {}

  lemma NodeSendsOk(cfg: Config, tr: seq<State>, acts: seq<Action>, i: nat, p: Packet)
    requires cfg.Valid() && StepAt(cfg, tr, acts, i) && acts[i].ByNode? && AllOk(cfg, tr, acts, i)
    requires p in NodeDo(cfg, tr[i], acts[i].node, acts[i].move).1
    ensures HeadersOk(cfg, tr[i + 1].now, p) && PayloadOk(cfg, tr, acts, i + 1, p)
  {
    NodeHeadersOk(cfg, tr[i], acts[i].node, acts[i].move, p);
    if p.msg.payload.PunchTheHole? {
      var q := acts[i].move.packet;
      assert PayloadOk(cfg, tr, acts, i, q);
      assert q in tr[i + 1].net;
    }
  }

  /** Every packet, in every run: who wrote it to whom, and what had to happen before. */
  lemma {:induction false} PacketsMean(cfg: Config, tr: seq<State>, acts: seq<Action>, i: nat)
    requires Run(cfg, tr, acts) && i < |tr|
    ensures AllOk(cfg, tr, acts, i)
  {
    if i > 0 {
      var j := i - 1;
      PacketsMean(cfg, tr, acts, j);
      assert StepAt(cfg, tr, acts, j);
      forall p | p in tr[i].net ensures HeadersOk(cfg, tr[i].now, p) && PayloadOk(cfg, tr, acts, i, p) {
        if p in tr[j].net {
          OkStays(cfg, tr, acts, j, p);
        } else if acts[j].ByHub? {
          HubSendsOk(cfg, tr, acts, j, p);
        } else {
          NodeSendsOk(cfg, tr, acts, j, p);
        }
      }
    }
  }

  /** A packet bears the time at which it was first sent. */
  lemma NewPacketsBearTheTime(cfg: Config, tr: seq<State>, acts: seq<Action>, i: nat, p: Packet)
    requires StepAt(cfg, tr, acts, i) && p in tr[i + 1].net && p !in tr[i].net
    ensures p.msg.headers.time == tr[i].now
  {}

  // ---------- where the entries of the tables come from ----------

  predicate SameButTime(a: PeerInfo, b: PeerInfo) { a == b.(lastSeen := a.lastSeen) }

  /** The entry was there at the start, or a packet that was sent here asked for it. */
  ghost predicate NodeEntryOk(cfg: Config, s0: State, s: State, a: Addr, id: PeerId)
    requires a in s.nodes && a in s0.nodes && id in s.nodes[a].peers
  {
    var entry, loaded := s.nodes[a].peers[id], s0.nodes[a].peers;
    || (id in loaded && SameButTime(entry, loaded[id]))
    || exists p :: p in s.net && p.dest == a && p.msg.payload.Register?
                   && cfg.hash(p.msg.payload.verifyingKey) == id
                   && SameButTime(entry, PeerInfo(id, p.msg.headers.srcAddr, p.msg.headers.srcUsername, 0, false,
                                                  p.msg.payload.verifyingKey))
  }

  ghost predicate HubEntryOk(cfg: Config, s0: State, s: State, id: PeerId)
    requires id in s.hub.relays
  {
    var entry, loaded := s.hub.relays[id], s0.hub.relays;
    || (id in loaded && SameButTime(entry, loaded[id]))
    || exists p :: p in s.net && p.dest == cfg.hub && p.msg.payload.BeNewRelay?
                   && cfg.hash(p.msg.payload.verifyingKey) == id
                   && SameButTime(entry, PeerInfo(id, p.msg.headers.srcAddr, p.msg.headers.srcUsername, 0, true,
                                                  p.msg.payload.verifyingKey))
  }

  ghost predicate EntriesOk(cfg: Config, s0: State, s: State) {
    && s.nodes.Keys == s0.nodes.Keys
    && (forall a <- s.nodes, id :: id in s.nodes[a].peers ==> NodeEntryOk(cfg, s0, s, a, id))
    && (forall id <- s.hub.relays :: HubEntryOk(cfg, s0, s, id))
  }

  /** An entry that stays, but for its time, is as well founded as before. */
  lemma NodeEntryStays(cfg: Config, s0: State, s: State, t: State, a: Addr, id: PeerId)
    requires a in s.nodes && a in t.nodes && a in s0.nodes && s.net <= t.net
    requires id in s.nodes[a].peers && id in t.nodes[a].peers && SameButTime(t.nodes[a].peers[id], s.nodes[a].peers[id])
    requires NodeEntryOk(cfg, s0, s, a, id)
    ensures NodeEntryOk(cfg, s0, t, a, id)
  {
    if !(id in s0.nodes[a].peers && SameButTime(s.nodes[a].peers[id], s0.nodes[a].peers[id])) {
      var p :| p in s.net && p.dest == a && p.msg.payload.Register?
               && cfg.hash(p.msg.payload.verifyingKey) == id
               && SameButTime(s.nodes[a].peers[id],
                              PeerInfo(id, p.msg.headers.srcAddr, p.msg.headers.srcUsername, 0, false,
                                       p.msg.payload.verifyingKey));
      assert p in t.net;
    }
  }

  lemma HubEntryStays(cfg: Config, s0: State, s: State, t: State, id: PeerId)
    requires s.net <= t.net && id in s.hub.relays && id in t.hub.relays
    requires SameButTime(t.hub.relays[id], s.hub.relays[id]) && HubEntryOk(cfg, s0, s, id)
    ensures HubEntryOk(cfg, s0, t, id)
  {
    if !(id in s0.hub.relays && SameButTime(s.hub.relays[id], s0.hub.relays[id])) {
      var p :| p in s.net && p.dest == cfg.hub && p.msg.payload.BeNewRelay?
               && cfg.hash(p.msg.payload.verifyingKey) == id
               && SameButTime(s.hub.relays[id],
                              PeerInfo(id, p.msg.headers.srcAddr, p.msg.headers.srcUsername, 0, true,
                                       p.msg.payload.verifyingKey));
      assert p in t.net;
    }
  }

  lemma NodeEntryAfter(cfg: Config, s0: State, s: State, act: Action, a: Addr, id: PeerId)
    requires Enabled(cfg, s, act) && EntriesOk(cfg, s0, s) && a in s.nodes && id in Do(cfg, s, act).nodes[a].peers
    ensures NodeEntryOk(cfg, s0, Do(cfg, s, act), a, id)
  {
    var t := Do(cfg, s, act);
    if id in s.nodes[a].peers {
      NodeEntryStays(cfg, s0, s, t, a, id);
    } else {
      var p := act.move.packet;
      assert p in t.net && p.dest == a && p.msg.payload.Register?;
    }
  }

  lemma HubEntryAfter(cfg: Config, s0: State, s: State, act: Action, id: PeerId)
    requires Enabled(cfg, s, act) && EntriesOk(cfg, s0, s) && id in Do(cfg, s, act).hub.relays
    ensures HubEntryOk(cfg, s0, Do(cfg, s, act), id)
  {
    var t := Do(cfg, s, act);
    if id in s.hub.relays {
      HubEntryStays(cfg, s0, s, t, id);
    } else {
      var p := act.packet;
      assert p in t.net && p.dest == cfg.hub && p.msg.payload.BeNewRelay?;
    }
  }

  /**
   * In every run an entry of a node's table was loaded at the start, or has the address, name and key
   * of a Register sent to this node, and is no relay; an entry of the hub's table those of a
   * BeNewRelay, and is one.
   */
  lemma {:induction false} EntriesComeFromPackets(cfg: Config, tr: seq<State>, acts: seq<Action>, i: nat)
    requires Run(cfg, tr, acts) && i < |tr|
    ensures EntriesOk(cfg, tr[0], tr[i])
  {
    if i > 0 {
      EntriesComeFromPackets(cfg, tr, acts, i - 1);
      assert StepAt(cfg, tr, acts, i - 1);
      var s, act := tr[i - 1], acts[i - 1];
      forall a, id | a in s.nodes && id in tr[i].nodes[a].peers ensures NodeEntryOk(cfg, tr[0], tr[i], a, id) {
        NodeEntryAfter(cfg, tr[0], s, act, a, id);
      }
      forall id | id in tr[i].hub.relays ensures HubEntryOk(cfg, tr[0], tr[i], id) {
        HubEntryAfter(cfg, tr[0], s, act, id);
      }
    }
  }

  // ---------- a node registers once ----------

  ghost predicate RegisterOf(p: Packet, a: Addr) { p.msg.headers.srcAddr == a && p.msg.payload.Register? }

  predicate BeforeRegistering(n: NodeState) { n.phase.Idle? || n.phase.Declaring? || n.phase.Asking? }

  ghost predicate OneRegister(s: State) {
    forall a <- s.nodes ::
      && (BeforeRegistering(s.nodes[a]) ==> forall p <- s.net :: !RegisterOf(p, a))
      && (forall p <- s.net, q <- s.net :: RegisterOf(p, a) && RegisterOf(q, a) ==> p == q)
  }

  /** A move that sends a Register leads from asking to registering, and sends no other packet. */
  lemma MoveRegisters(cfg: Config, s: State, a: Addr, move: Move)
    requires CanMove(cfg, s, a, move)
    ensures var (n, sends) := NodeDo(cfg, s, a, move);
            && (forall p <- sends :: p.msg.headers.srcAddr == a)
            && (forall p <- sends, q <- sends :: p == q)
            && (BeforeRegistering(n) ==> BeforeRegistering(s.nodes[a]) && forall p <- sends :: !p.msg.payload.Register?)
            && (forall p <- sends :: p.msg.payload.Register? ==> BeforeRegistering(s.nodes[a]))
  {}

  lemma HubNeverRegisters(cfg: Config, h: HubState, now: U64, m: Message, choice: PeerId)
    requires HasIds(h.next, 2)
    ensures forall p <- HubReceive(cfg, h, now, m, choice).1 :: !p.msg.payload.Register?
  {}

  lemma StepKeepsOneRegister(cfg: Config, s: State, act: Action)
    requires Enabled(cfg, s, act) && OneRegister(s)
    ensures OneRegister(Do(cfg, s, act))
  {
    var t := Do(cfg, s, act);
    if act.ByNode? {
      MoveRegisters(cfg, s, act.node, act.move);
    } else if act.ByHub? {
      HubNeverRegisters(cfg, s.hub, s.now, act.packet.msg, act.choice);
      assert forall p <- t.net :: p in s.net || !p.msg.payload.Register?;
    }
  }

  /**
   * A node sends at most one Register in a run: after it, it is connected, waits, or has given up; and
   * both ends are final.
   */
  lemma {:induction false} RegistersOnce(cfg: Config, tr: seq<State>, acts: seq<Action>, i: nat)
    requires Run(cfg, tr, acts) && i < |tr|
    ensures OneRegister(tr[i]) && tr[i].nodes.Keys == cfg.keys.Keys
  {
    if i > 0 {
      RegistersOnce(cfg, tr, acts, i - 1);
      assert StepAt(cfg, tr, acts, i - 1);
      StepKeepsOneRegister(cfg, tr[i - 1], acts[i - 1]);
    }
  }

  lemma {:induction false} EndsAreFinal(cfg: Config, tr: seq<State>, acts: seq<Action>, i: nat, j: nat, a: Addr)
    requires Run(cfg, tr, acts) && i <= j < |tr| && a in tr[i].nodes
    requires tr[i].nodes[a].phase.Connected? || tr[i].nodes[a].phase.Stopped?
    ensures a in tr[j].nodes && tr[j].nodes[a].phase == tr[i].nodes[a].phase
  {
    if i < j {
      EndsAreFinal(cfg, tr, acts, i, j - 1, a);
      assert StepAt(cfg, tr, acts, j - 1);
    }
  }
}
