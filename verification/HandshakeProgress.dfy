/** A network that delivers connects its nodes: wherever a node has got to, a run leads on to a relay. */
module HandshakeProgress {
  import opened Types
  import opened Handshake

  /** The actions lead from one state to another. */
  ghost predicate Leads(cfg: Config, s: State, acts: seq<Action>, t: State)
    decreases |acts|
  {
    if acts == [] then s == t
    else Enabled(cfg, s, acts[0]) && Leads(cfg, Do(cfg, s, acts[0]), acts[1..], t)
  }

  lemma LeadsOne(cfg: Config, s: State, act: Action)
    requires Enabled(cfg, s, act)
    ensures Leads(cfg, s, [act], Do(cfg, s, act))
  {
    assert [act][1..] == [];
  }

  lemma {:induction false} LeadsJoin(cfg: Config, s: State, a: seq<Action>, t: State, b: seq<Action>, u: State)
    requires Leads(cfg, s, a, t) && Leads(cfg, t, b, u)
    ensures Leads(cfg, s, a + b, u)
    decreases |a|
  {
    if a == [] {
      assert a + b == b;
    } else {
      assert (a + b)[1..] == a[1..] + b;
      LeadsJoin(cfg, Do(cfg, s, a[0]), a[1..], t, b, u);
    }
  }

  lemma Then(cfg: Config, s: State, acts: seq<Action>, t: State, act: Action)
    requires Leads(cfg, s, acts, t) && Enabled(cfg, t, act)
    ensures Leads(cfg, s, acts + [act], Do(cfg, t, act))
  {
    LeadsOne(cfg, t, act);
    LeadsJoin(cfg, s, acts, t, [act], Do(cfg, t, act));
  }

  /** The states on the way are a run. */
  lemma {:induction false} LeadsIsRun(cfg: Config, s: State, acts: seq<Action>, t: State) returns (tr: seq<State>)
    requires Leads(cfg, s, acts, t)
    ensures |tr| == |acts| + 1 && tr[0] == s && tr[|acts|] == t
    ensures forall i: nat :: i < |acts| ==> StepAt(cfg, tr, acts, i)
    decreases |acts|
  {
    if acts == [] {
      tr := [s];
    } else {
      var next := Do(cfg, s, acts[0]);
      var rest := LeadsIsRun(cfg, next, acts[1..], t);
      tr := [s] + rest;
      forall i: nat | i < |acts| ensures StepAt(cfg, tr, acts, i) {
        if i > 0 {
          assert StepAt(cfg, rest, acts[1..], i - 1);
          assert tr[i] == rest[i - 1] && tr[i + 1] == rest[i] && acts[i] == acts[1..][i - 1];
        }
      }
    }
  }

  // ---------- what a node waits for is on the wire ----------

  predicate IsAsk(cfg: Config, client: Addr, q: Packet) {
    q.dest == cfg.hub && q.msg.payload.NeedRelay? && q.msg.headers.srcAddr == client
  }

  predicate IsRegister(cfg: Config, client: Addr, relay: Addr, id: U64, q: Packet) {
    && q.dest == relay && q.msg.headers.srcAddr == client && q.msg.headers.msgId == id
    && client in cfg.keys && q.msg.payload == Register(cfg.keys[client])
  }

  /** The hub channel holds answers only, and what the node last asked for was sent. */
  ghost predicate Underway(cfg: Config, net: set<Packet>, a: Addr, n: NodeState) {
    && (forall k :: 0 <= k < |n.answers| ==> n.answers[k].payload.PeerIs? || n.answers[k].payload.NoRelayAvailable?)
    && match n.phase
       case Asking => exists q :: q in net && IsAsk(cfg, a, q)
       case Registering(relay, _, id) =>
         && (id in n.pending || id in n.signalled)
         && exists q :: q in net && IsRegister(cfg, a, relay, id, q)
       case _ => true
  }

  ghost predicate AllUnderway(cfg: Config, s: State) {
    forall a <- s.nodes :: Underway(cfg, s.net, a, s.nodes[a])
  }

  lemma UnderwayGrows(cfg: Config, net: set<Packet>, more: set<Packet>, a: Addr, n: NodeState)
    requires Underway(cfg, net, a, n)
    ensures Underway(cfg, net + more, a, n)
  {
    match n.phase
    case Asking =>
      var q :| q in net && IsAsk(cfg, a, q);
      assert q in net + more;
    case Registering(relay, _, id) =>
      var q :| q in net && IsRegister(cfg, a, relay, id, q);
      assert q in net + more;
    case _ =>
  }

  lemma MoveIsUnderway(cfg: Config, s: State, a: Addr, move: Move)
    requires CanMove(cfg, s, a, move) && Underway(cfg, s.net, a, s.nodes[a])
    ensures var (n, sends) := NodeDo(cfg, s, a, move); Underway(cfg, s.net + sends, a, n)
  {
    var was := s.nodes[a];
    var (n, sends) := NodeDo(cfg, s, a, move);
    UnderwayGrows(cfg, s.net, sends, a, was);
    var asks := NodePacket(cfg, a, was, s.now, cfg.hub, "hub", NeedRelay);
    if asks in sends {
      assert asks in s.net + sends && IsAsk(cfg, a, asks);
    }
    if move.Take? && was.answers[0].payload.PeerIs? {
      var info := was.answers[0].payload.info;
      var q := NodePacket(cfg, a, was, s.now, info.addr, info.username, Register(cfg.keys[a]));
      assert q in s.net + sends && IsRegister(cfg, a, info.addr, was.next, q);
    }
  }

  lemma StepKeepsOne(cfg: Config, s: State, a: Addr, act: Action)
    requires Enabled(cfg, s, act) && a in s.nodes && Underway(cfg, s.net, a, s.nodes[a])
    ensures a in Do(cfg, s, act).nodes && Underway(cfg, Do(cfg, s, act).net, a, Do(cfg, s, act).nodes[a])
  {
    if act.ByNode? && act.node == a {
      MoveIsUnderway(cfg, s, a, act.move);
    } else {
      var t := Do(cfg, s, act);
      UnderwayGrows(cfg, s.net, t.net, a, s.nodes[a]);
      assert s.net + t.net == t.net;
    }
  }

  lemma StepKeepsUnderway(cfg: Config, s: State, act: Action)
    requires Enabled(cfg, s, act) && AllUnderway(cfg, s)
    ensures AllUnderway(cfg, Do(cfg, s, act))
  {
    forall a | a in Do(cfg, s, act).nodes
      ensures Underway(cfg, Do(cfg, s, act).net, a, Do(cfg, s, act).nodes[a])
    {
      assert a in s.nodes;
      StepKeepsOne(cfg, s, a, act);
    }
  }

  lemma {:induction false} AlwaysUnderway(cfg: Config, tr: seq<State>, acts: seq<Action>, i: nat)
    requires Run(cfg, tr, acts) && i < |tr|
    ensures AllUnderway(cfg, tr[i]) && tr[i].nodes.Keys == cfg.keys.Keys
  {
    if i > 0 {
      AlwaysUnderway(cfg, tr, acts, i - 1);
      assert StepAt(cfg, tr, acts, i - 1);
      StepKeepsUnderway(cfg, tr[i - 1], acts[i - 1]);
    }
  }

  // ---------- the way to a relay ----------

  ghost predicate Placed(cfg: Config, s: State, client: Addr) {
    cfg.Valid() && s.nodes.Keys == cfg.keys.Keys && client in s.nodes
  }

  /** The first relay among the hub's answers that still wait in the channel. */
  function FirstOffer(answers: seq<Message>): Option<PeerInfo> {
    if answers == [] then None
    else if answers[0].payload.PeerIs? then Some(answers[0].payload.info)
    else FirstOffer(answers[1..])
  }

  /** The hub can offer this entry to the client. */
  predicate InTable(s: State, client: Addr, entry: PeerId, relay: Addr, name: string) {
    && entry in s.hub.relays && s.hub.relays[entry].addr == relay && s.hub.relays[entry].username == name
    && relay != client
  }

  /** The relay the client will register with: the offer it took, or waits to take, or the entry. */
  ghost predicate Bound(s: State, client: Addr, entry: PeerId, relay: Addr, name: string)
    requires client in s.nodes
  {
    match s.nodes[client].phase
    case Registering(r, n, _) => r == relay && n == name
    case Connected(r, n) => r == relay && n == name
    case Stopped => false
    case _ =>
      match FirstOffer(s.nodes[client].answers)
      case Some(info) => info.addr == relay && info.username == name
      case None => InTable(s, client, entry, relay, name)
  }

  /** Ids enough are left for the messages of a handshake. */
  ghost predicate Roomy(s: State, count: nat) {
    HasIds(s.hub.next, count) && forall a <- s.nodes :: HasIds(s.nodes[a].next, count)
  }

  /** The node's Ack arrives and the node goes on. */
  lemma AckArrives(cfg: Config, s: State, client: Addr, p: Packet) returns (acts: seq<Action>, t: State)
    requires client in s.nodes && client in cfg.keys && client in cfg.names && HasIds(s.nodes[client].next, 2)
    requires p in s.net && p.dest == client
    requires s.nodes[client].phase.Declaring? || s.nodes[client].phase.Registering?
    requires s.nodes[client].phase.id in s.nodes[client].pending && p.msg.payload == Ack(s.nodes[client].phase.id)
    ensures Leads(cfg, s, acts, t) && t.hub == s.hub && t.nodes.Keys == s.nodes.Keys && t.now == s.now
    ensures forall a <- s.nodes :: a != client ==> t.nodes[a] == s.nodes[a]
    ensures t.nodes[client].next <= s.nodes[client].next + 1 && t.nodes[client].answers == s.nodes[client].answers
    ensures match s.nodes[client].phase
            case Declaring(_) =>
              && t.nodes[client].phase.Asking?
              && NodePacket(cfg, client, s.nodes[client], s.now, cfg.hub, "hub", NeedRelay) in t.net
            case Registering(relay, name, _) => t.nodes[client].phase == Connected(relay, name)
            case _ => true
  {
    var receive, wake := ByNode(client, Receive(p)), ByNode(client, Wake);
    var s1 := Do(cfg, s, receive);
    LeadsOne(cfg, s, receive);
    t := Do(cfg, s1, wake);
    acts := [receive] + [wake];
    Then(cfg, s, [receive], s1, wake);
  }

  /** From idle, or from a declaration without an Ack, to asking. */
  lemma DeclarationSucceeds(cfg: Config, s: State, client: Addr) returns (acts: seq<Action>, t: State)
    requires Placed(cfg, s, client) && Roomy(s, 4)
    requires s.nodes[client].phase.Idle? || (s.nodes[client].phase.Declaring? && !Acknowledged(s.nodes[client]))
    ensures Leads(cfg, s, acts, t) && Placed(cfg, t, client)
    ensures t.nodes[client].phase.Asking? && t.nodes[client].answers == s.nodes[client].answers
    ensures exists q :: q in t.net && IsAsk(cfg, client, q)
    ensures forall id, r, name :: InTable(s, client, id, r, name) ==> InTable(t, client, id, r, name)
    ensures t.hub.next == s.hub.next + 1 && t.nodes[client].next <= s.nodes[client].next + 2
    ensures forall a <- s.nodes :: a != client ==> t.nodes[a] == s.nodes[a]
  {
    var n := s.nodes[client];
    var declare := ByNode(client, if n.phase.Idle? then Begin else Expire);
    var s1 := Do(cfg, s, declare);
    LeadsOne(cfg, s, declare);
    var p := NodePacket(cfg, client, n, s.now, cfg.hub, "hub", BeNewRelay(cfg.keys[client]));
    var atHub := ByHub(p, "");
    var s2 := Do(cfg, s1, atHub);
    Then(cfg, s, [declare], s1, atHub);
    var ack := HubPacket(cfg, s.hub.next, s.now, client, cfg.names[client], Ack(n.next));
    assert ack in s2.net;
    var more;
    more, t := AckArrives(cfg, s2, client, ack);
    var ask := NodePacket(cfg, client, s2.nodes[client], s2.now, cfg.hub, "hub", NeedRelay);
    assert ask in t.net && IsAsk(cfg, client, ask);
    acts := [declare] + [atHub] + more;
    LeadsJoin(cfg, s, [declare] + [atHub], s2, more, t);
  }

  /** The Ack of the declaration was there: the client asks. */
  lemma DeclaredAsks(cfg: Config, s: State, client: Addr) returns (acts: seq<Action>, t: State)
    requires Placed(cfg, s, client) && Roomy(s, 4) && s.nodes[client].phase.Declaring? && Acknowledged(s.nodes[client])
    ensures Leads(cfg, s, acts, t) && Placed(cfg, t, client) && t.hub == s.hub
    ensures t.nodes[client].phase.Asking? && t.nodes[client].answers == s.nodes[client].answers
    ensures exists q :: q in t.net && IsAsk(cfg, client, q)
    ensures t.nodes[client].next == s.nodes[client].next + 1
    ensures forall a <- s.nodes :: a != client ==> t.nodes[a] == s.nodes[a]
  {
    var wake := ByNode(client, Wake);
    t := Do(cfg, s, wake);
    acts := [wake];
    LeadsOne(cfg, s, wake);
    var ask := NodePacket(cfg, client, s.nodes[client], s.now, cfg.hub, "hub", NeedRelay);
    assert ask in t.net && IsAsk(cfg, client, ask);
  }

  /** The refusals before the first offer are taken one by one; each makes the client ask again. */
  lemma {:induction false} RefusalsPass(cfg: Config, s: State, client: Addr) returns (acts: seq<Action>, t: State)
    requires Placed(cfg, s, client) && s.nodes[client].phase.Asking? && Underway(cfg, s.net, client, s.nodes[client])
    requires HasIds(s.nodes[client].next, |s.nodes[client].answers|)
    ensures Leads(cfg, s, acts, t) && Placed(cfg, t, client) && t.hub == s.hub
    ensures t.nodes[client].phase.Asking? && Underway(cfg, t.net, client, t.nodes[client])
    ensures FirstOffer(t.nodes[client].answers) == FirstOffer(s.nodes[client].answers)
    ensures t.nodes[client].answers != [] ==> t.nodes[client].answers[0].payload.PeerIs?
    ensures t.nodes[client].next <= s.nodes[client].next + |s.nodes[client].answers|
    ensures forall a <- s.nodes :: a != client ==> t.nodes[a] == s.nodes[a]
    decreases |s.nodes[client].answers|
  {
    var n := s.nodes[client];
    if n.answers == [] || n.answers[0].payload.PeerIs? {
      acts, t := [], s;
    } else {
      var take := ByNode(client, Take);
      var s1 := Do(cfg, s, take);
      LeadsOne(cfg, s, take);
      MoveIsUnderway(cfg, s, client, Take);
      var more;
      more, t := RefusalsPass(cfg, s1, client);
      acts := [take] + more;
      LeadsJoin(cfg, s, [take], s1, more, t);
    }
  }

  /** With an empty channel the hub is asked and offers the entry. */
  lemma OfferArrives(cfg: Config, s: State, client: Addr, entry: PeerId, relay: Addr, name: string)
    returns (acts: seq<Action>, t: State)
    requires Placed(cfg, s, client) && InTable(s, client, entry, relay, name)
    requires HasIds(s.hub.next, 2) && HasIds(s.nodes[client].next, 1)
    requires s.nodes[client].phase.Asking? && s.nodes[client].answers == []
    requires Underway(cfg, s.net, client, s.nodes[client])
    ensures Leads(cfg, s, acts, t) && Placed(cfg, t, client) && Underway(cfg, t.net, client, t.nodes[client])
    ensures t.nodes[client].phase.Asking? && t.nodes[client].next == s.nodes[client].next
    ensures var answers := t.nodes[client].answers;
            answers != [] && answers[0].payload.PeerIs? && FirstOffer(answers) == Some(s.hub.relays[entry])
    ensures forall a <- s.nodes :: a != client ==> t.nodes[a] == s.nodes[a]
  {
    var ask :| ask in s.net && IsAsk(cfg, client, ask);
    var info := s.hub.relays[entry];
    var atHub := ByHub(ask, entry);
    assert Offerable(s.hub.relays, entry, client);
    var s1 := Do(cfg, s, atHub);
    LeadsOne(cfg, s, atHub);
    var offer := HubPacket(cfg, s.hub.next + 1, s.now, client, ask.msg.headers.srcUsername, PeerIs(info));
    assert offer in s1.net;
    var receive := ByNode(client, Receive(offer));
    t := Do(cfg, s1, receive);
    Then(cfg, s, [atHub], s1, receive);
    StepKeepsOne(cfg, s, client, atHub);
    StepKeepsOne(cfg, s1, client, receive);
    assert t.nodes[client].answers == [offer.msg];
    acts := [atHub] + [receive];
  }

  /** The client takes the offer and writes to the relay. */
  lemma OfferTaken(cfg: Config, s: State, client: Addr) returns (acts: seq<Action>, t: State)
    requires Placed(cfg, s, client) && HasIds(s.nodes[client].next, 1) && s.nodes[client].phase.Asking?
    requires Underway(cfg, s.net, client, s.nodes[client])
    requires s.nodes[client].answers != [] && s.nodes[client].answers[0].payload.PeerIs?
    ensures Leads(cfg, s, acts, t) && Placed(cfg, t, client) && Underway(cfg, t.net, client, t.nodes[client])
    ensures var info := s.nodes[client].answers[0].payload.info;
            t.nodes[client].phase == Registering(info.addr, info.username, s.nodes[client].next)
    ensures t.nodes[client].next == s.nodes[client].next + 1
    ensures forall a <- s.nodes :: a != client ==> t.nodes[a] == s.nodes[a]
  {
    var take := ByNode(client, Take);
    t := Do(cfg, s, take);
    acts := [take];
    LeadsOne(cfg, s, take);
    MoveIsUnderway(cfg, s, client, Take);
  }

  /** From registering to connected: the relay enters the client and acknowledges it. */
  lemma RegistrationSucceeds(cfg: Config, s: State, client: Addr) returns (acts: seq<Action>, t: State)
    requires Placed(cfg, s, client) && s.nodes[client].phase.Registering? && s.nodes[client].phase.relay in s.nodes
    requires Underway(cfg, s.net, client, s.nodes[client])
    requires HasIds(s.nodes[client].next, 3) && HasIds(s.nodes[s.nodes[client].phase.relay].next, 1)
    ensures Leads(cfg, s, acts, t) && client in t.nodes
    ensures t.nodes[client].phase == Connected(s.nodes[client].phase.relay, s.nodes[client].phase.name)
  {
    var Registering(relay, _, id) := s.nodes[client].phase;
    if id in s.nodes[client].signalled {
      var wake := ByNode(client, Wake);
      t := Do(cfg, s, wake);
      acts := [wake];
      LeadsOne(cfg, s, wake);
    } else {
      var register :| register in s.net && IsRegister(cfg, client, relay, id, register);
      var receive := ByNode(relay, Receive(register));
      var s1 := Do(cfg, s, receive);
      LeadsOne(cfg, s, receive);
      var ack := NodePacket(cfg, relay, s.nodes[relay], s.now, client, register.msg.headers.srcUsername, Ack(id));
      assert ack in s1.net;
      var more;
      more, t := AckArrives(cfg, s1, client, ack);
      acts := [receive] + more;
      LeadsJoin(cfg, s, [receive], s1, more, t);
    }
  }

  /** From an offer in the channel to connected. */
  lemma OfferConnects(cfg: Config, s: State, client: Addr) returns (acts: seq<Action>, t: State)
    requires Placed(cfg, s, client) && s.nodes[client].phase.Asking? && Underway(cfg, s.net, client, s.nodes[client])
    requires s.nodes[client].answers != [] && s.nodes[client].answers[0].payload.PeerIs?
    requires s.nodes[client].answers[0].payload.info.addr in s.nodes
    requires HasIds(s.nodes[client].next, 4)
    requires HasIds(s.nodes[s.nodes[client].answers[0].payload.info.addr].next, 4)
    ensures Leads(cfg, s, acts, t) && client in t.nodes
    ensures var info := s.nodes[client].answers[0].payload.info;
            t.nodes[client].phase == Connected(info.addr, info.username)
  {
    var a1, s1 := OfferTaken(cfg, s, client);
    var a2;
    a2, t := RegistrationSucceeds(cfg, s1, client);
    LeadsJoin(cfg, s, a1, s1, a2, t);
    acts := a1 + a2;
  }

  /** From asking to connected. */
  lemma AskingConnects(cfg: Config, s: State, client: Addr, entry: PeerId, relay: Addr, name: string)
    returns (acts: seq<Action>, t: State)
    requires Placed(cfg, s, client) && s.nodes[client].phase.Asking? && Underway(cfg, s.net, client, s.nodes[client])
    requires Bound(s, client, entry, relay, name) && relay in s.nodes
    requires Roomy(s, 4 + |s.nodes[client].answers|)
    ensures Leads(cfg, s, acts, t) && client in t.nodes && t.nodes[client].phase == Connected(relay, name)
  {
    var a1, s1 := RefusalsPass(cfg, s, client);
    var a2, s2 := [], s1;
    if s1.nodes[client].answers == [] {
      a2, s2 := OfferArrives(cfg, s1, client, entry, relay, name);
    }
    LeadsJoin(cfg, s, a1, s1, a2, s2);
    var a3;
    a3, t := OfferConnects(cfg, s2, client);
    LeadsJoin(cfg, s, a1 + a2, s2, a3, t);
    acts := a1 + a2 + a3;
  }

  /** From wherever the client has got to. */
  lemma Connects(cfg: Config, s: State, client: Addr, entry: PeerId, relay: Addr, name: string)
    returns (acts: seq<Action>, t: State)
    requires Placed(cfg, s, client) && Underway(cfg, s.net, client, s.nodes[client])
    requires Bound(s, client, entry, relay, name) && relay in s.nodes
    requires Roomy(s, 6 + |s.nodes[client].answers|)
    ensures Leads(cfg, s, acts, t) && client in t.nodes && t.nodes[client].phase == Connected(relay, name)
  {
    var n := s.nodes[client];
    if n.phase.Connected? {
      acts, t := [], s;
    } else if n.phase.Registering? {
      acts, t := RegistrationSucceeds(cfg, s, client);
    } else {
      var a1, s1 := [], s;
      if n.phase.Declaring? && Acknowledged(n) {
        a1, s1 := DeclaredAsks(cfg, s, client);
      } else if !n.phase.Asking? {
        a1, s1 := DeclarationSucceeds(cfg, s, client);
      }
      var a2;
      a2, t := AskingConnects(cfg, s1, client, entry, relay, name);
      acts := a1 + a2;
      LeadsJoin(cfg, s, a1, s1, a2, t);
    }
  }

  /**
   * In every run, unless the client has given up: it can still be connected, whatever was lost and
   * however often it had to try again. It gets to the relay it writes to, or else to the one it waits
   * to be told of, or else to any entry of the hub's table that is at the address of another node.
   */
  lemma ClientCanConnect(cfg: Config, tr: seq<State>, acts: seq<Action>, client: Addr, entry: PeerId,
                         relay: Addr, name: string)
    returns (longer: seq<State>, more: seq<Action>)
    requires Run(cfg, tr, acts) && client in tr[|acts|].nodes
    requires Bound(tr[|acts|], client, entry, relay, name) && relay in tr[|acts|].nodes
    requires Roomy(tr[|acts|], 6 + |tr[|acts|].nodes[client].answers|)
    ensures Run(cfg, longer, acts + more) && tr <= longer
    ensures client in longer[|acts + more|].nodes
    ensures longer[|acts + more|].nodes[client].phase == Connected(relay, name)
  {
    var s := tr[|acts|];
    AlwaysUnderway(cfg, tr, acts, |acts|);
    var t;
    more, t := Connects(cfg, s, client, entry, relay, name);
    var rest := LeadsIsRun(cfg, s, more, t);
    longer := tr + rest[1..];
    RunsJoin(cfg, tr, acts, rest, more);
  }

  lemma RunsJoin(cfg: Config, tr: seq<State>, acts: seq<Action>, rest: seq<State>, more: seq<Action>)
    requires Run(cfg, tr, acts) && |rest| == |more| + 1 && rest[0] == tr[|acts|]
    requires forall i: nat :: i < |more| ==> StepAt(cfg, rest, more, i)
    ensures Run(cfg, tr + rest[1..], acts + more)
    ensures (tr + rest[1..])[|acts + more|] == rest[|more|]
  {
    var longer, all := tr + rest[1..], acts + more;
    forall k: nat | k <= |more| ensures longer[|acts| + k] == rest[k] {}
    forall i: nat | i < |all| ensures StepAt(cfg, longer, all, i) {
      if i < |acts| {
        assert StepAt(cfg, tr, acts, i);
      } else {
        assert StepAt(cfg, rest, more, i - |acts|);
        assert longer[i] == rest[i - |acts|] && longer[i + 1] == rest[i - |acts| + 1];
      }
    }
  }
}
