/** The client node and the hub as objects; each method call is a step of the transition system. */
module Nodes {
  import opened Types
  import opened Handshake

  /** What was put on the wire since `before`. */
  function Sent(before: seq<Packet>, after: seq<Packet>): set<Packet>
    requires before <= after
  {
    set p | p in after[|before|..]
  }

  lemma SentOne(before: seq<Packet>, p: Packet)
    ensures Sent(before, before + [p]) == {p}
  {
    assert (before + [p])[|before|..] == [p];
  }

  lemma SentNone(before: seq<Packet>)
    ensures Sent(before, before) == {}
  {}

  lemma SentTwo(before: seq<Packet>, p: Packet, q: Packet)
    ensures Sent(before, before + [p] + [q]) == {p, q}
  {
    assert (before + [p] + [q])[|before|..] == [p, q];
  }

  /**
   * Wherever a node is in the state `was`, it can make this move, and the step makes its state `end`,
   * puts `sent` on the wire and changes nothing else.
   */
  ghost predicate Enacts(cfg: Config, a: Addr, was: NodeState, move: Move, now: U64, end: NodeState, sent: set<Packet>) {
    forall s: State ::
      NodeStands(s, a, was, now) && (move.Receive? ==> move.packet in s.net) ==>
        && CanMove(cfg, s, a, move)
        && Do(cfg, s, ByNode(a, move)) == s.(nodes := s.nodes[a := end], net := s.net + sent)
  }

  ghost predicate NodeStands(s: State, a: Addr, was: NodeState, now: U64) {
    a in s.nodes && s.nodes[a] == was && s.now == now
  }

  /** The same for the hub and a message that reaches it. */
  ghost predicate HubEnacts(cfg: Config, was: HubState, m: Message, choice: PeerId, now: U64,
                            end: HubState, sent: set<Packet>)
  {
    forall s: State ::
      HubStands(s, was, now) && Packet(m, cfg.hub) in s.net ==>
        && Enabled(cfg, s, ByHub(Packet(m, cfg.hub), choice))
        && Do(cfg, s, ByHub(Packet(m, cfg.hub), choice)) == s.(hub := end, net := s.net + sent)
  }

  ghost predicate HubStands(s: State, was: HubState, now: U64) { s.hub == was && s.now == now }

  class ClientNode {
    const cfg: Config
    const self: Addr
    var next: U64
    var phase: Phase
    var pending: set<U64>
    var signalled: set<U64>
    var answers: seq<Message>
    var peers: PeerMap
    var wire: seq<Packet>

    constructor (cfg: Config, self: Addr, firstId: U64, peers: PeerMap)
      ensures this.cfg == cfg && this.self == self && wire == []
      ensures Now() == NodeState(firstId, Idle, {}, {}, [], peers)
    {
      this.cfg, this.self := cfg, self;
      next, phase, pending, signalled, answers := firstId, Idle, {}, {}, [];
      this.peers := peers;
      wire := [];
    }

    function Now(): NodeState
      reads this
    {
      NodeState(next, phase, pending, signalled, answers, peers)
    }

    /** The node is known to its network and can number one more message. */
    predicate Ready()
      reads this
    {
      self in cfg.names && self in cfg.keys && HasIds(next, 1)
    }

    /** Numbers, signs and sends a message. */
    method Send(now: U64, dst: Addr, dstName: string, payload: Payload) returns (id: U64)
      requires Ready()
      modifies this`next, this`wire
      ensures id == old(next) && next == old(next) + 1
      ensures wire == old(wire) + [NodePacket(cfg, self, old(Now()), now, dst, dstName, payload)]
    {
      id := next;
      wire := wire + [NewPacket(cfg, self, cfg.names[self], id, dst, dstName, now, payload)];
      next := next + 1;
    }

    method OnMessage(m: Message, now: U64)
      requires Ready()
      modifies this
      ensures old(wire) <= wire
      ensures (Now(), Sent(old(wire), wire)) == NodeReceive(cfg, self, old(Now()), now, m)
      ensures Enacts(cfg, self, old(Now()), Receive(Packet(m, self)), now, Now(), Sent(old(wire), wire))
    {
      ghost var before := wire;
      SentNone(before);
      match m.payload {
        case Ack(replyTo) =>
          if replyTo in pending {
            pending, signalled := pending - {replyTo}, signalled + {replyTo};
          }
        case PeerIs(_) => answers := answers + [m];
        case NoRelayAvailable => answers := answers + [m];
        case Register(key) =>
          var id := cfg.hash(key);
          if id in peers {
            peers := peers[id := peers[id].(lastSeen := now)];
          } else {
            peers := peers[id := PeerInfo(id, m.headers.srcAddr, m.headers.srcUsername, now, false, key)];
          }
          var _ := Send(now, m.headers.srcAddr, m.headers.srcUsername, Ack(m.headers.msgId));
          SentOne(before, wire[|before|]);
        case RelayHasNewClient(addr, name) =>
          var _ := Send(now, addr, name, PunchTheHole);
          SentOne(before, wire[|before|]);
        case _ =>
      }
    }

    /** BeNewRelay, at first and after every timeout. */
    method DeclareSelf(now: U64)
      requires Ready()
      modifies this
      ensures old(wire) <= wire
      ensures (Now(), Sent(old(wire), wire)) == Declare(cfg, self, old(Now()), now)
      ensures old(phase).Idle? ==> Enacts(cfg, self, old(Now()), Begin, now, Now(), Sent(old(wire), wire))
    {
      ghost var before := wire;
      var id := Send(now, cfg.hub, "hub", BeNewRelay(cfg.keys[self]));
      pending, phase := pending + {id}, Declaring(id);
      SentOne(before, wire[|before|]);
    }

    method Ask(now: U64)
      requires Ready()
      modifies this
      ensures old(wire) <= wire
      ensures (Now(), Sent(old(wire), wire)) == AskForRelay(cfg, self, old(Now()), now)
    {
      ghost var before := wire;
      var _ := Send(now, cfg.hub, "hub", NeedRelay);
      phase := Asking;
      SentOne(before, wire[|before|]);
    }

    /** What the wait for an Ack comes to: the signal, or ten seconds without it. */
    method EndWait(now: U64)
      requires Ready() && (phase.Declaring? || phase.Registering?)
      modifies this
      ensures old(wire) <= wire
      ensures (Now(), Sent(old(wire), wire))
           == if Acknowledged(old(Now())) then Proceed(cfg, self, old(Now()), now)
              else TimeOut(cfg, self, old(Now()), now)
      ensures Enacts(cfg, self, old(Now()), if Acknowledged(old(Now())) then Wake else Expire, now,
                     Now(), Sent(old(wire), wire))
    {
      SentNone(wire);
      if phase.id in signalled {
        if phase.Declaring? {
          Ask(now);
        } else {
          phase := Connected(phase.relay, phase.name);
        }
      } else if phase.Declaring? {
        DeclareSelf(now);
      } else {
        phase := Stopped;
      }
    }

    method OnAnswer(now: U64)
      requires Ready() && phase.Asking? && answers != []
      modifies this
      ensures old(wire) <= wire
      ensures (Now(), Sent(old(wire), wire)) == Handshake.TakeAnswer(cfg, self, old(Now()), now)
      ensures Enacts(cfg, self, old(Now()), Take, now, Now(), Sent(old(wire), wire))
    {
      ghost var before := wire;
      SentNone(before);
      var m := answers[0];
      answers := answers[1..];
      match m.payload {
        case PeerIs(info) =>
          var id := Send(now, info.addr, info.username, Register(cfg.keys[self]));
          pending, phase := pending + {id}, Registering(info.addr, info.username, id);
          SentOne(before, wire[|before|]);
        case NoRelayAvailable => Ask(now);
        case _ => phase := Stopped;
      }
    }
  }

  class Hub {
    const cfg: Config
    var next: U64
    var relays: PeerMap
    var wire: seq<Packet>

    constructor (cfg: Config, firstId: U64, relays: PeerMap)
      ensures this.cfg == cfg && Now() == HubState(firstId, relays) && wire == []
    {
      this.cfg := cfg;
      next, wire := firstId, [];
      this.relays := relays;
    }

    function Now(): HubState
      reads this
    {
      HubState(next, relays)
    }

    method Send(now: U64, dst: Addr, dstName: string, payload: Payload)
      requires HasIds(next, 1)
      modifies this`next, this`wire
      ensures next == old(next) + 1
      ensures wire == old(wire) + [HubPacket(cfg, old(next), now, dst, dstName, payload)]
    {
      wire := wire + [NewPacket(cfg, cfg.hub, "hub", next, dst, dstName, now, payload)];
      next := next + 1;
    }

    /** The first relay, in whatever order the map gives, that is not at the client's own address. */
    method FindRelay(client: Addr) returns (choice: Option<PeerId>)
      ensures choice.Some? ==> Offerable(relays, choice.value, client)
      ensures choice.None? ==> forall id :: !Offerable(relays, id, client)
    {
      var rest := relays.Keys;
      while rest != {}
        invariant rest <= relays.Keys
        invariant forall id <- relays :: id in rest || !Offerable(relays, id, client)
      {
        var id :| id in rest;
        if relays[id].addr != client {
          return Some(id);
        }
        rest := rest - {id};
      }
      choice := None;
    }

    method OnMessage(m: Message, now: U64) returns (choice: PeerId)
      requires HasIds(next, 2)
      modifies this
      ensures old(wire) <= wire
      ensures (exists id :: Offerable(old(relays), id, m.headers.srcAddr)) && m.payload.NeedRelay? ==>
                Offerable(old(relays), choice, m.headers.srcAddr)
      ensures (Now(), Sent(old(wire), wire)) == HubReceive(cfg, old(Now()), now, m, choice)
      ensures HubEnacts(cfg, old(Now()), m, choice, now, Now(), Sent(old(wire), wire))
    {
      ghost var before := wire;
      SentNone(before);
      choice := "";
      match m.payload {
        case BeNewRelay(key) =>
          var id := cfg.hash(key);
          if id in relays {
            relays := relays[id := relays[id].(lastSeen := now)];
          } else {
            relays := relays[id := PeerInfo(id, m.headers.srcAddr, m.headers.srcUsername, now, true, key)];
          }
          Send(now, m.headers.srcAddr, m.headers.srcUsername, Ack(m.headers.msgId));
          SentOne(before, wire[|before|]);
        case NeedRelay =>
          var found := FindRelay(m.headers.srcAddr);
          if found.Some? {
            choice := found.value;
            var relay := relays[choice];
            Send(now, relay.addr, relay.username, RelayHasNewClient(m.headers.srcAddr, m.headers.srcUsername));
            Send(now, m.headers.srcAddr, m.headers.srcUsername, PeerIs(relay));
            SentTwo(before, wire[|before|], wire[|before| + 1]);
          } else {
            Send(now, m.headers.srcAddr, m.headers.srcUsername, NoRelayAvailable);
            SentOne(before, wire[|before|]);
          }
        case _ =>
      }
    }
  }
}
