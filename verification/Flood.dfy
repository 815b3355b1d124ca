/**
 * The flood of one chat message. A relay forwards every copy it receives to every peer in its table
 * except the originator, and remembers nothing: the copies are the walks of the graph of tables.
 */
module Flood {
  import opened Types

  /** The peer table of every node, by the node's address. */
  type Tables = map<Addr, PeerMap>

  /** The table entries followed from the first relay on; it names one copy among all. */
  type Trail = seq<PeerId>

  datatype Copy = Copy(trail: Trail, msg: Message, dest: Addr)

  // ---------- one relay ----------

  function RelayKeys(peers: PeerMap, src: Addr): set<PeerId> { set id | id in peers && peers[id].addr != src }

  function PacketsTo(peers: PeerMap, order: seq<PeerId>, msg: Message): (ps: seq<Packet>)
    requires forall id <- order :: id in peers
  {
    seq(|order|, i requires 0 <= i < |order| => Packet(msg, peers[order[i]].addr))
  }

  /** How many of the packets go to an address. */
  function CountTo(ps: seq<Packet>, a: Addr): nat {
    if ps == [] then 0 else CountTo(ps[..|ps| - 1], a) + (if ps[|ps| - 1].dest == a then 1 else 0)
  }

  function EntriesAt(peers: PeerMap, a: Addr): set<PeerId> { set id | id in peers && peers[id].addr == a }

  function SentAt(peers: PeerMap, order: seq<PeerId>, a: Addr): set<PeerId> {
    set id | id in order && id in peers && peers[id].addr == a
  }

  lemma PacketsSnoc(peers: PeerMap, order: seq<PeerId>, id: PeerId, msg: Message)
    requires id in peers && forall other <- order :: other in peers
    ensures PacketsTo(peers, order + [id], msg) == PacketsTo(peers, order, msg) + [Packet(msg, peers[id].addr)]
  {}

  lemma CountSnoc(ps: seq<Packet>, p: Packet, a: Addr)
    ensures CountTo(ps + [p], a) == CountTo(ps, a) + (if p.dest == a then 1 else 0)
  {
    assert (ps + [p])[..|ps|] == ps;
  }

  lemma SentAtSnoc(peers: PeerMap, order: seq<PeerId>, id: PeerId, a: Addr)
    requires id in peers && id !in order
    ensures |SentAt(peers, order + [id], a)| == |SentAt(peers, order, a)| + (if peers[id].addr == a then 1 else 0)
  {
    assert SentAt(peers, order + [id], a) == SentAt(peers, order, a) + (if peers[id].addr == a then {id} else {});
  }

  lemma {:induction false} CountIsEntries(peers: PeerMap, order: seq<PeerId>, msg: Message, a: Addr)
    requires Distinct(order) && forall id <- order :: id in peers
    ensures CountTo(PacketsTo(peers, order, msg), a) == |SentAt(peers, order, a)|
  {
    if order != [] {
      var init, last := order[..|order| - 1], order[|order| - 1];
      assert order == init + [last];
      PacketsSnoc(peers, init, last, msg);
      CountSnoc(PacketsTo(peers, init, msg), Packet(msg, peers[last].addr), a);
      SentAtSnoc(peers, init, last, a);
      CountIsEntries(peers, init, msg, a);
    }
  }

  predicate Distinct(order: seq<PeerId>) { forall i, j :: 0 <= i < j < |order| ==> order[i] != order[j] }

  class Relay {
    const self: Addr
    var peers: PeerMap
    var logs: seq<Message>
    var wire: seq<Packet>

    constructor (self: Addr, peers: PeerMap)
      ensures this.self == self && this.peers == peers && logs == [] && wire == []
    {
      this.self := self;
      this.peers := peers;
      logs, wire := [], [];
    }

    /**
     * The table is visited in whatever order the map gives. `refused` are the entries for which the
     * socket refuses to send; such a send is not logged.
     */
    method RelayMessage(msg: Message, refused: set<PeerId>) returns (order: seq<PeerId>)
      modifies this`logs, this`wire
      ensures Distinct(order) && forall id :: id in order <==> id in RelayKeys(peers, msg.headers.srcAddr) - refused
      ensures forall id :: id in order <==> id in peers && peers[id].addr != msg.headers.srcAddr && id !in refused
      ensures logs == old(logs) + seq(|order|, i => msg.(lastHop := self))
      ensures wire == old(wire) + PacketsTo(peers, order, msg.(lastHop := self))
    {
      var hop := msg.(lastHop := self);
      var rest := peers.Keys;
      order := [];
      while rest != {}
        invariant rest <= peers.Keys
        invariant forall id <- order :: id in peers && id !in rest
        invariant forall id <- peers ::
                    id in rest || (id in order <==> id in RelayKeys(peers, msg.headers.srcAddr) - refused)
        invariant Distinct(order)
        invariant logs == old(logs) + seq(|order|, i => hop)
        invariant wire == old(wire) + PacketsTo(peers, order, hop)
      {
        var id :| id in rest;
        if peers[id].addr != msg.headers.srcAddr && id !in refused {
          assert PacketsTo(peers, order + [id], hop) == PacketsTo(peers, order, hop) + [Packet(hop, peers[id].addr)];
          wire := wire + [Packet(hop, peers[id].addr)];
          logs := logs + [hop];
          order := order + [id];
        }
        rest := rest - {id};
      }
    }

    /**
     * A chat message arrives: it is logged, and relayed unless it is for this very address: each address
     * but the originator's gets as many copies as the table has entries there, and each copy is logged.
     * In the flood this is the delivery of the copy.
     */
    method OnClassic(msg: Message) returns (order: seq<PeerId>)
      requires msg.payload.Classic?
      modifies this`logs, this`wire
      ensures var keys := if self == msg.headers.dstAddr then {} else RelayKeys(peers, msg.headers.srcAddr);
              && Distinct(order) && (forall id :: id in order <==> id in keys)
              && logs == old(logs) + [msg] + Echo(msg, self, keys)
              && wire == old(wire) + PacketsTo(peers, order, msg.(lastHop := self))
      ensures old(wire) <= wire && forall p <- wire[|old(wire)|..] :: p.msg == msg.(lastHop := self)
      ensures forall a: Addr ::
                CountTo(wire[|old(wire)|..], a)
                == if self == msg.headers.dstAddr || a == msg.headers.srcAddr then 0 else |EntriesAt(peers, a)|
      ensures logs == old(logs) + [msg] + seq(|wire| - |old(wire)|, i => msg.(lastHop := self))
      ensures forall g: Tables, c: Copy :: self in g && g[self] == peers && c.msg == msg && c.dest == self ==>
                Forwards(g, c) == set id | id in order :: Copy(c.trail + [id], msg.(lastHop := self), peers[id].addr)
      ensures forall g: Tables, n: Net, c: Copy ::
                self in g && g[self] == peers && c.msg == msg && c.dest == self && c in n.flying
                && self in n.logs && n.logs[self] == old(logs) ==>
                  Apply(g, n, Deliver(c)).logs == n.logs[self := logs]
    {
      logs := logs + [msg];
      order := [];
      if self != msg.headers.dstAddr {
        order := RelayMessage(msg, {});
        assert (set id | id in order) == RelayKeys(peers, msg.headers.srcAddr);
      }
      DistinctCount(order);
      var hop := msg.(lastHop := self);
      assert wire[|old(wire)|..] == PacketsTo(peers, order, hop);
      forall a: Addr
        ensures CountTo(PacketsTo(peers, order, hop), a)
             == if self == msg.headers.dstAddr || a == msg.headers.srcAddr then 0 else |EntriesAt(peers, a)|
      {
        CountIsEntries(peers, order, hop, a);
        assert SentAt(peers, order, a)
            == if self == msg.headers.dstAddr || a == msg.headers.srcAddr then {} else EntriesAt(peers, a);
      }
    }
  }

  lemma {:induction false} DistinctCount(s: seq<PeerId>)
    requires Distinct(s)
    ensures |set id | id in s| == |s|
  {
    if s != [] {
      var init, last := s[..|s| - 1], s[|s| - 1];
      DistinctCount(init);
      assert (set id | id in s) == (set id | id in init) + {last};
    }
  }

  /** The log entries of one relaying: the same message once for every entry it is sent to. */
  function Echo(msg: Message, self: Addr, keys: set<PeerId>): seq<Message> {
    seq(|keys|, i => msg.(lastHop := self))
  }

  // ---------- walks ----------

  /** The entries to which a node forwards a message with these headers. */
  function Edges(g: Tables, h: Headers, v: Addr): set<PeerId> {
    if v in g && v != h.dstAddr then RelayKeys(g[v], h.srcAddr) else {}
  }

  /** Where a trail leads from v; None when it is not a walk. */
  function End(g: Tables, h: Headers, v: Addr, t: Trail): Option<Addr> {
    if t == [] then Some(v) else
    match End(g, h, v, t[..|t| - 1])
    case None => None
    case Some(u) => if t[|t| - 1] in Edges(g, h, u) then Some(g[u][t[|t| - 1]].addr) else None
  }

  /** Entry `id` of node u, which is not the addressee, leads to w, which is not the originator. */
  predicate LeadsTo(g: Tables, h: Headers, u: Addr, id: PeerId, w: Addr) {
    u in g && u != h.dstAddr && id in g[u] && g[u][id].addr == w && w != h.srcAddr
  }

  /** The nodes that a trail visits, from v on. */
  ghost predicate Visits(g: Tables, h: Headers, v: Addr, t: Trail, nodes: seq<Addr>) {
    && |nodes| == |t| + 1 && nodes[0] == v
    && forall k :: 0 <= k < |t| ==> LeadsTo(g, h, nodes[k], t[k], nodes[k + 1])
  }

  lemma VisitsSnoc(g: Tables, h: Headers, v: Addr, t: Trail, nodes: seq<Addr>, id: PeerId, w: Addr)
    requires |nodes| == |t| + 1
    ensures Visits(g, h, v, t + [id], nodes + [w]) <==> Visits(g, h, v, t, nodes) && LeadsTo(g, h, nodes[|t|], id, w)
  {
    var longer, all := t + [id], nodes + [w];
    if Visits(g, h, v, longer, all) {
      assert LeadsTo(g, h, all[|t|], longer[|t|], all[|t| + 1]);
      forall k | 0 <= k < |t| ensures LeadsTo(g, h, nodes[k], t[k], nodes[k + 1]) {
        assert LeadsTo(g, h, all[k], longer[k], all[k + 1]);
      }
    }
  }

  lemma EdgesLead(g: Tables, h: Headers, u: Addr, id: PeerId, w: Addr)
    ensures LeadsTo(g, h, u, id, w) <==> id in Edges(g, h, u) && g[u][id].addr == w
  {}

  lemma {:induction false} WalkVisits(g: Tables, h: Headers, v: Addr, t: Trail) returns (nodes: seq<Addr>)
    requires End(g, h, v, t).Some?
    ensures Visits(g, h, v, t, nodes) && End(g, h, v, t) == Some(nodes[|t|])
  {
    if t == [] {
      nodes := [v];
    } else {
      var init, id := t[..|t| - 1], t[|t| - 1];
      var before := WalkVisits(g, h, v, init);
      var w := End(g, h, v, t).value;
      EdgesLead(g, h, before[|init|], id, w);
      VisitsSnoc(g, h, v, init, before, id, w);
      assert init + [id] == t;
      nodes := before + [w];
    }
  }

  lemma {:induction false} VisitsWalk(g: Tables, h: Headers, v: Addr, t: Trail, nodes: seq<Addr>)
    requires Visits(g, h, v, t, nodes)
    ensures End(g, h, v, t) == Some(nodes[|t|])
  {
    if t != [] {
      var init, id := t[..|t| - 1], t[|t| - 1];
      assert init + [id] == t && nodes[..|t|] + [nodes[|t|]] == nodes;
      VisitsSnoc(g, h, v, init, nodes[..|t|], id, nodes[|t|]);
      VisitsWalk(g, h, v, init, nodes[..|t|]);
      EdgesLead(g, h, nodes[|t| - 1], id, nodes[|t|]);
    }
  }

  /** What a walk is, in terms of the tables alone. */
  lemma EndMeaning(g: Tables, h: Headers, v: Addr, t: Trail, w: Addr)
    ensures End(g, h, v, t) == Some(w) <==> exists nodes: seq<Addr> :: Visits(g, h, v, t, nodes) && nodes[|t|] == w
  {
    if End(g, h, v, t) == Some(w) {
      var nodes := WalkVisits(g, h, v, t);
    }
    if nodes: seq<Addr> :| Visits(g, h, v, t, nodes) && nodes[|t|] == w {
      VisitsWalk(g, h, v, t, nodes);
    }
  }

  ghost predicate Walk(g: Tables, h: Headers, v: Addr, t: Trail) { End(g, h, v, t).Some? }

  /** A walk from the relay reaches a node from which a nonempty walk comes back. */
  ghost predicate Cyclic(g: Tables, h: Headers, relay: Addr) {
    exists p: Trail, c: Trail :: Cycle(g, h, relay, p, c)
  }

  ghost predicate Cycle(g: Tables, h: Headers, relay: Addr, p: Trail, c: Trail) {
    Walk(g, h, relay, p) && c != [] && End(g, h, End(g, h, relay, p).value, c) == End(g, h, relay, p)
  }

  /** The trails with one step more. */
  ghost function Extensions(g: Tables, h: Headers, relay: Addr, ts: set<Trail>): set<Trail> {
    set t, id | t in ts && Walk(g, h, relay, t) && id in Edges(g, h, End(g, h, relay, t).value) :: t + [id]
  }

  /** All walks of at most n steps: finitely many. */
  ghost function Walks(g: Tables, h: Headers, relay: Addr, n: nat): (ts: set<Trail>)
    ensures forall t: Trail :: t in ts <==> Walk(g, h, relay, t) && |t| <= n
  {
    if n == 0 then {[]} else
    var shorter := Walks(g, h, relay, n - 1);
    OneStepMore(g, h, relay, shorter, n);
    shorter + Extensions(g, h, relay, shorter)
  }

  lemma EndSnoc(g: Tables, h: Headers, v: Addr, t: Trail, id: PeerId)
    ensures End(g, h, v, t + [id])
         == match End(g, h, v, t)
            case None => None
            case Some(u) => if id in Edges(g, h, u) then Some(g[u][id].addr) else None
  {
    assert (t + [id])[..|t|] == t;
  }

  lemma {:induction false} EndJoin(g: Tables, h: Headers, v: Addr, t: Trail, more: Trail)
    ensures End(g, h, v, t + more)
         == match End(g, h, v, t) case None => None case Some(u) => End(g, h, u, more)
  {
    if more == [] {
      assert t + more == t;
    } else {
      var init := more[..|more| - 1];
      EndJoin(g, h, v, t, init);
      assert t + more == t + init + [more[|more| - 1]];
      EndSnoc(g, h, v, t + init, more[|more| - 1]);
    }
  }

  lemma PrefixIsWalk(g: Tables, h: Headers, v: Addr, t: Trail, k: nat)
    requires k <= |t| && Walk(g, h, v, t)
    ensures Walk(g, h, v, t[..k])
  {
    assert t == t[..k] + t[k..];
    EndJoin(g, h, v, t[..k], t[k..]);
  }

  lemma ExtensionsMeaning(g: Tables, h: Headers, relay: Addr, ts: set<Trail>, t: Trail)
    ensures t in Extensions(g, h, relay, ts) <==> t != [] && t[..|t| - 1] in ts && Walk(g, h, relay, t)
  {
    if t != [] {
      var init, id := t[..|t| - 1], t[|t| - 1];
      assert t == init + [id];
      EndSnoc(g, h, relay, init, id);
    }
    if t in Extensions(g, h, relay, ts) {
      var s, id :| s in ts && Walk(g, h, relay, s) && id in Edges(g, h, End(g, h, relay, s).value) && t == s + [id];
      assert s == t[..|t| - 1];
    }
  }

  lemma WalkInit(g: Tables, h: Headers, relay: Addr, t: Trail)
    requires t != [] && Walk(g, h, relay, t)
    ensures Walk(g, h, relay, t[..|t| - 1])
  {}

  lemma OneStepMore(g: Tables, h: Headers, relay: Addr, shorter: set<Trail>, n: nat)
    requires n > 0 && forall t: Trail :: t in shorter <==> Walk(g, h, relay, t) && |t| <= n - 1
    ensures forall t: Trail ::
              t in shorter || t in Extensions(g, h, relay, shorter) <==> Walk(g, h, relay, t) && |t| <= n
  {
    forall t: Trail
      ensures t in shorter || t in Extensions(g, h, relay, shorter) <==> Walk(g, h, relay, t) && |t| <= n
    {
      ExtensionsMeaning(g, h, relay, shorter, t);
      if t != [] && Walk(g, h, relay, t) {
        WalkInit(g, h, relay, t);
      }
    }
  }

  // ---------- cycles and the length of walks ----------

  lemma {:induction false} Pigeonhole(s: seq<Addr>, among: set<Addr>) returns (i: nat, j: nat)
    requires |s| > |among| && forall v <- s :: v in among
    ensures i < j < |s| && s[i] == s[j]
  {
    var init, last := s[..|s| - 1], s[|s| - 1];
    if last in init {
      i :| 0 <= i < |init| && init[i] == last;
      j := |s| - 1;
    } else {
      assert forall v <- init :: v in among - {last};
      i, j := Pigeonhole(init, among - {last});
    }
  }

  /** A walk with more steps than there are nodes goes round a cycle. */
  lemma LongWalkIsCyclic(g: Tables, h: Headers, relay: Addr, t: Trail)
    requires Walk(g, h, relay, t) && |t| > |g.Keys|
    ensures Cyclic(g, h, relay)
  {
    forall k | 0 <= k < |t| ensures Walk(g, h, relay, t[..k]) && End(g, h, relay, t[..k]).value in g {
      PrefixIsWalk(g, h, relay, t, k);
      PrefixIsWalk(g, h, relay, t, k + 1);
      assert t[..k + 1] == t[..k] + [t[k]];
      EndSnoc(g, h, relay, t[..k], t[k]);
    }
    var visited := seq(|t|, k requires 0 <= k < |t| => End(g, h, relay, t[..k]).value);
    var i, j := Pigeonhole(visited, g.Keys);
    assert t[..j] == t[..i] + t[i..j];
    EndJoin(g, h, relay, t[..i], t[i..j]);
    assert End(g, h, relay, t[..i]) == Some(visited[i]) && End(g, h, relay, t[..j]) == Some(visited[j]);
    assert Cycle(g, h, relay, t[..i], t[i..j]);
  }

  /** A cycle gives walks as long as one likes. */
  lemma {:induction false} CyclePumps(g: Tables, h: Headers, relay: Addr, n: nat) returns (t: Trail)
    requires Cyclic(g, h, relay)
    ensures Walk(g, h, relay, t) && |t| >= n
  {
    var p, c :| Cycle(g, h, relay, p, c);
    t := p;
    while |t| < n
      invariant End(g, h, relay, t) == End(g, h, relay, p)
      decreases n - |t|
    {
      EndJoin(g, h, relay, t, c);
      t := t + c;
    }
  }

  lemma WalksAreShort(g: Tables, h: Headers, relay: Addr, t: Trail)
    requires !Cyclic(g, h, relay)
    ensures t in Walks(g, h, relay, |g.Keys|) <==> Walk(g, h, relay, t)
  {
    if Walk(g, h, relay, t) && |t| > |g.Keys| {
      LongWalkIsCyclic(g, h, relay, t);
    }
  }

  // ---------- the flood as a transition system ----------

  /** Copies in flight, copies delivered (in order), copies lost, and every node's log. */
  datatype Net = Net(flying: multiset<Copy>, delivered: seq<Copy>, lost: multiset<Copy>, logs: map<Addr, seq<Message>>)

  datatype Event = Deliver(c: Copy) | Lose(c: Copy)

  /** The originator has sent its message to its relay; `logs` is what the nodes had logged before. */
  function Start(m: Message, relay: Addr, logs: map<Addr, seq<Message>>): Net {
    Net(multiset{Copy([], m, relay)}, [], multiset{}, logs)
  }

  /** What a node puts on the wire when a copy reaches it. */
  function Forwards(g: Tables, c: Copy): set<Copy> {
    set id | id in Edges(g, c.msg.headers, c.dest) ::
      Copy(c.trail + [id], c.msg.(lastHop := c.dest), g[c.dest][id].addr)
  }

  /** An event about a copy that is not in flight is not an event. */
  function Apply(g: Tables, n: Net, e: Event): Net {
    if e.c !in n.flying then n else
    match e
    case Lose(c) => n.(flying := n.flying - multiset{c}, lost := n.lost + multiset{c})
    case Deliver(c) =>
      Net(n.flying - multiset{c} + multiset(Forwards(g, c)), n.delivered + [c], n.lost,
          if c.dest !in n.logs then n.logs else
          n.logs[c.dest := n.logs[c.dest] + [c.msg] + Echo(c.msg, c.dest, Edges(g, c.msg.headers, c.dest))])
  }

  function After(g: Tables, start: Net, es: seq<Event>): Net {
    if es == [] then start else Apply(g, After(g, start, es[..|es| - 1]), es[|es| - 1])
  }

  ghost predicate Quiet(n: Net) { n.flying == multiset{} }

  ghost predicate Lossless(es: seq<Event>) { forall i :: 0 <= i < |es| ==> es[i].Deliver? }

  /** Every event of the schedule is about a copy that is in flight then. */
  ghost predicate Effective(g: Tables, start: Net, es: seq<Event>) {
    es == [] || (Effective(g, start, es[..|es| - 1])
                 && es[|es| - 1].c in After(g, start, es[..|es| - 1]).flying)
  }

  // ---------- the invariant ----------

  ghost function All(n: Net): multiset<Copy> { n.flying + multiset(n.delivered) + n.lost }

  /** A copy is the original message but for its last hop, and sits where its trail leads. */
  ghost predicate Faithful(g: Tables, m: Message, relay: Addr, c: Copy) {
    && c.msg.headers == m.headers && c.msg.payload == m.payload
    && End(g, m.headers, relay, c.trail) == Some(c.dest)
    && (if c.trail == [] then c.msg.lastHop == m.lastHop
        else End(g, m.headers, relay, c.trail[..|c.trail| - 1]) == Some(c.msg.lastHop))
  }

  ghost predicate HasTrail(cs: multiset<Copy>, t: Trail) { exists c :: c in cs && c.trail == t }

  /** Every copy is faithful, there is one of each, and no two have the same trail. */
  ghost predicate CopiesOk(g: Tables, m: Message, relay: Addr, all: multiset<Copy>) {
    && (forall c :: c in all ==> Faithful(g, m, relay, c) && all[c] == 1)
    && (forall c, d :: c in all && d in all && c.trail == d.trail ==> c == d)
  }

  /** A walk is there, as a copy, once the walk without its last step was delivered. */
  ghost predicate TrailsGrow(g: Tables, h: Headers, relay: Addr, all: multiset<Copy>, delivered: multiset<Copy>) {
    forall t: Trail, id: PeerId ::
      HasTrail(all, t + [id]) <==> HasTrail(delivered, t) && Walk(g, h, relay, t + [id])
  }

  ghost predicate Inv(g: Tables, m: Message, relay: Addr, n: Net) {
    && CopiesOk(g, m, relay, All(n))
    && HasTrail(All(n), [])
    && TrailsGrow(g, m.headers, relay, All(n), multiset(n.delivered))
  }

  lemma HasTrailJoin(a: multiset<Copy>, b: multiset<Copy>, t: Trail)
    ensures HasTrail(a + b, t) <==> HasTrail(a, t) || HasTrail(b, t)
  {
    if c :| c in a && c.trail == t {
      assert c in a + b;
    }
    if c :| c in b && c.trail == t {
      assert c in a + b;
    }
  }

  lemma StartInv(g: Tables, m: Message, relay: Addr, logs: map<Addr, seq<Message>>)
    ensures Inv(g, m, relay, Start(m, relay, logs))
  {
    var n := Start(m, relay, logs);
    assert All(n) == multiset{Copy([], m, relay)};
    assert Copy([], m, relay) in All(n);
  }

  /** A copy in flight has not been delivered, so none of its forwards exists yet. */
  lemma ForwardsAreNew(g: Tables, m: Message, relay: Addr, n: Net, c: Copy)
    requires Inv(g, m, relay, n) && c in n.flying
    ensures !HasTrail(multiset(n.delivered), c.trail)
    ensures forall id: PeerId :: !HasTrail(All(n), c.trail + [id])
  {
    assert c in All(n) && c !in multiset(n.delivered);
    forall d | d in multiset(n.delivered) ensures d in All(n) {}
  }

  lemma ForwardTrails(g: Tables, m: Message, relay: Addr, c: Copy, t: Trail, id: PeerId)
    requires Faithful(g, m, relay, c)
    ensures HasTrail(multiset(Forwards(g, c)), t + [id])
            <==> t == c.trail && Walk(g, m.headers, relay, t + [id])
  {
    EndSnoc(g, m.headers, relay, c.trail, id);
    if t == c.trail && id in Edges(g, m.headers, c.dest) {
      assert Copy(c.trail + [id], c.msg.(lastHop := c.dest), g[c.dest][id].addr) in Forwards(g, c);
    }
    if d :| d in Forwards(g, c) && d.trail == t + [id] {
      assert d.trail[..|t|] == t && d.trail[..|c.trail|] == c.trail;
    }
  }

  lemma ForwardsAreFaithful(g: Tables, m: Message, relay: Addr, c: Copy, d: Copy)
    requires Faithful(g, m, relay, c) && d in Forwards(g, c)
    ensures Faithful(g, m, relay, d) && d.trail != [] && d.trail[..|d.trail| - 1] == c.trail
  {
    var id := d.trail[|d.trail| - 1];
    assert d.trail == c.trail + [id];
    EndSnoc(g, m.headers, relay, c.trail, id);
  }

  lemma DeliverKeepsCopiesOk(g: Tables, m: Message, relay: Addr, n: Net, c: Copy)
    requires Inv(g, m, relay, n) && c in n.flying
    ensures CopiesOk(g, m, relay, All(n) + multiset(Forwards(g, c)))
  {
    ForwardsAreNew(g, m, relay, n, c);
    assert c in All(n);
    forall d | d in Forwards(g, c)
      ensures Faithful(g, m, relay, d) && d !in All(n) && !HasTrail(All(n), d.trail)
    {
      ForwardsAreFaithful(g, m, relay, c, d);
      assert d.trail == c.trail + [d.trail[|d.trail| - 1]];
    }
  }

  lemma DeliverKeepsTrails(g: Tables, m: Message, relay: Addr, all: multiset<Copy>, delivered: multiset<Copy>, c: Copy)
    requires TrailsGrow(g, m.headers, relay, all, delivered)
    requires Faithful(g, m, relay, c) && !HasTrail(delivered, c.trail)
    ensures TrailsGrow(g, m.headers, relay, all + multiset(Forwards(g, c)), delivered + multiset{c})
  {
    forall t: Trail, id: PeerId
      ensures HasTrail(all + multiset(Forwards(g, c)), t + [id])
              <==> HasTrail(delivered + multiset{c}, t) && Walk(g, m.headers, relay, t + [id])
    {
      HasTrailJoin(all, multiset(Forwards(g, c)), t + [id]);
      HasTrailJoin(delivered, multiset{c}, t);
      ForwardTrails(g, m, relay, c, t, id);
    }
  }

  lemma DeliverKeepsInv(g: Tables, m: Message, relay: Addr, n: Net, c: Copy)
    requires Inv(g, m, relay, n) && c in n.flying
    ensures Inv(g, m, relay, Apply(g, n, Deliver(c)))
  {
    var after := Apply(g, n, Deliver(c));
    assert c in All(n);
    ForwardsAreNew(g, m, relay, n, c);
    DeliverKeepsCopiesOk(g, m, relay, n, c);
    DeliverKeepsTrails(g, m, relay, All(n), multiset(n.delivered), c);
    HasTrailJoin(All(n), multiset(Forwards(g, c)), []);
    assert multiset(after.delivered) == multiset(n.delivered) + multiset{c};
    assert All(after) == All(n) + multiset(Forwards(g, c));
  }

  lemma LoseKeepsInv(g: Tables, m: Message, relay: Addr, n: Net, c: Copy)
    requires Inv(g, m, relay, n) && c in n.flying
    ensures Inv(g, m, relay, Apply(g, n, Lose(c)))
  {
    assert All(Apply(g, n, Lose(c))) == All(n);
  }

  /** The invariant holds throughout: with any losses, in any order of delivery. */
  lemma {:induction false} AlwaysInv(g: Tables, m: Message, relay: Addr, logs: map<Addr, seq<Message>>, es: seq<Event>)
    ensures Inv(g, m, relay, After(g, Start(m, relay, logs), es))
  {
    if es == [] {
      StartInv(g, m, relay, logs);
    } else {
      var init, e := es[..|es| - 1], es[|es| - 1];
      AlwaysInv(g, m, relay, logs, init);
      var n := After(g, Start(m, relay, logs), init);
      if e.c in n.flying {
        if e.Deliver? { DeliverKeepsInv(g, m, relay, n, e.c); } else { LoseKeepsInv(g, m, relay, n, e.c); }
      }
    }
  }
}
