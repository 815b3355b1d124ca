/** What the invariant of the flood gives: when it ends, how many copies arrive where, and the logs. */
module FloodTheorems {
  import opened Types
  import opened Flood

  // ---------- counting copies by their trails ----------

  /** The copies are different, and so are their trails. */
  ghost predicate Separate(cs: multiset<Copy>) {
    && (forall c :: c in cs ==> cs[c] == 1)
    && (forall c, d :: c in cs && d in cs && c.trail == d.trail ==> c == d)
  }

  lemma {:induction false} AtMostTrails(cs: multiset<Copy>, trails: set<Trail>)
    requires Separate(cs) && forall c :: c in cs ==> c.trail in trails
    ensures |cs| <= |trails|
  {
    if c :| c in cs {
      var rest := cs - multiset{c};
      assert forall d :: d in rest ==> d in cs && d != c && rest[d] == cs[d];
      AtMostTrails(rest, trails - {c.trail});
    }
  }

  lemma {:induction false} AtLeastTrails(cs: multiset<Copy>, trails: set<Trail>)
    requires forall t :: t in trails ==> HasTrail(cs, t)
    ensures |cs| >= |trails|
  {
    if t :| t in trails {
      var c :| c in cs && c.trail == t;
      var rest := cs - multiset{c};
      forall u | u in trails - {t} ensures HasTrail(rest, u) {
        var d :| d in cs && d.trail == u;
        assert d in rest;
      }
      AtLeastTrails(rest, trails - {t});
    }
  }

  // ---------- when the flood ends ----------

  /** Everything created so far is a walk, so there are never more copies than walks. */
  lemma NoMoreThanWalks(g: Tables, m: Message, relay: Addr, n: Net)
    requires Inv(g, m, relay, n) && !Cyclic(g, m.headers, relay)
    ensures |All(n)| <= |Walks(g, m.headers, relay, |g.Keys|)|
  {
    forall c | c in All(n) ensures c.trail in Walks(g, m.headers, relay, |g.Keys|) {
      WalksAreShort(g, m.headers, relay, c.trail);
    }
    AtMostTrails(All(n), Walks(g, m.headers, relay, |g.Keys|));
  }

  lemma OneEvent(g: Tables, n: Net, e: Event)
    requires e.c in n.flying
    ensures var next := Apply(g, n, e);
            && |next.delivered| + |next.lost| == |n.delivered| + |n.lost| + 1
            && (e.Deliver? ==> next.lost == n.lost)
  {}

  /** Each event uses up one copy for good. */
  lemma {:induction false} EventsCounted(g: Tables, start: Net, es: seq<Event>)
    requires Effective(g, start, es) && start.delivered == [] && start.lost == multiset{}
    ensures |After(g, start, es).delivered| + |After(g, start, es).lost| == |es|
  {
    if es != [] {
      EventsCounted(g, start, es[..|es| - 1]);
      OneEvent(g, After(g, start, es[..|es| - 1]), es[|es| - 1]);
    }
  }

  /** No cycle: under every schedule, lossy or not, the flood is over after as many events as walks. */
  lemma AcyclicFloodEnds(g: Tables, m: Message, relay: Addr, logs: map<Addr, seq<Message>>, es: seq<Event>)
    requires !Cyclic(g, m.headers, relay) && Effective(g, Start(m, relay, logs), es)
    ensures |es| <= |Walks(g, m.headers, relay, |g.Keys|)|
    ensures |es| == |Walks(g, m.headers, relay, |g.Keys|)| ==> Quiet(After(g, Start(m, relay, logs), es))
  {
    var n := After(g, Start(m, relay, logs), es);
    AlwaysInv(g, m, relay, logs, es);
    NoMoreThanWalks(g, m, relay, n);
    EventsCounted(g, Start(m, relay, logs), es);
    assert |All(n)| == |n.flying| + |n.delivered| + |n.lost|;
  }

  /** When all copies are delivered, and each has made its forwards, every walk was delivered. */
  lemma {:induction false} EveryWalk(g: Tables, h: Headers, relay: Addr, all: multiset<Copy>, t: Trail)
    requires HasTrail(all, []) && TrailsGrow(g, h, relay, all, all)
    ensures HasTrail(all, t) <==> Walk(g, h, relay, t)
  {
    if t != [] {
      var init, id := t[..|t| - 1], t[|t| - 1];
      assert t == init + [id];
      EveryWalk(g, h, relay, all, init);
      EndSnoc(g, h, relay, init, id);
    }
  }

  /** When a lossless flood is over, what was delivered is every walk. */
  lemma QuietHasEveryWalk(g: Tables, m: Message, relay: Addr, n: Net, t: Trail)
    requires Inv(g, m, relay, n) && Quiet(n) && n.lost == multiset{}
    ensures HasTrail(multiset(n.delivered), t) <==> Walk(g, m.headers, relay, t)
  {
    assert All(n) == multiset(n.delivered);
    EveryWalk(g, m.headers, relay, All(n), t);
  }

  lemma {:induction false} LongestTrail(cs: seq<Copy>) returns (n: nat)
    ensures forall c <- cs :: |c.trail| <= n
  {
    n := 0;
    for i := 0 to |cs|
      invariant forall c <- cs[..i] :: |c.trail| <= n
    {
      assert cs[..i + 1] == cs[..i] + [cs[i]];
      if |cs[i].trail| > n { n := |cs[i].trail|; }
    }
    assert cs[..|cs|] == cs;
  }

  lemma {:induction false} LosslessLosesNothing(g: Tables, start: Net, es: seq<Event>)
    requires Lossless(es) && start.lost == multiset{}
    ensures After(g, start, es).lost == multiset{}
  {
    if es != [] {
      LosslessLosesNothing(g, start, es[..|es| - 1]);
    }
  }

  /** A cycle: unless something is lost, the flood is not over under any schedule, ever. */
  lemma CyclicFloodNeverEnds(g: Tables, m: Message, relay: Addr, logs: map<Addr, seq<Message>>, es: seq<Event>)
    requires Cyclic(g, m.headers, relay) && Lossless(es)
    ensures !Quiet(After(g, Start(m, relay, logs), es))
  {
    var n := After(g, Start(m, relay, logs), es);
    AlwaysInv(g, m, relay, logs, es);
    LosslessLosesNothing(g, Start(m, relay, logs), es);
    if Quiet(n) {
      var longest := LongestTrail(n.delivered);
      var t := CyclePumps(g, m.headers, relay, longest + 1);
      QuietHasEveryWalk(g, m, relay, n, t);
      assert false;
    }
  }

  lemma EffectiveSnoc(g: Tables, start: Net, es: seq<Event>, e: Event)
    requires Effective(g, start, es) && e.c in After(g, start, es).flying
    ensures Effective(g, start, es + [e])
  {
    assert (es + [e])[..|es|] == es;
  }

  lemma {:induction false} DeliverTheRest(g: Tables, m: Message, relay: Addr, logs: map<Addr, seq<Message>>,
                                          es: seq<Event>)
    returns (all: seq<Event>)
    requires !Cyclic(g, m.headers, relay)
    requires Effective(g, Start(m, relay, logs), es) && Lossless(es)
    ensures Lossless(all) && Quiet(After(g, Start(m, relay, logs), all))
    decreases |Walks(g, m.headers, relay, |g.Keys|)| - |es|
  {
    AcyclicFloodEnds(g, m, relay, logs, es);
    if Quiet(After(g, Start(m, relay, logs), es)) {
      all := es;
    } else {
      var c :| c in After(g, Start(m, relay, logs), es).flying;
      EffectiveSnoc(g, Start(m, relay, logs), es, Deliver(c));
      all := DeliverTheRest(g, m, relay, logs, es + [Deliver(c)]);
    }
  }

  /** A lossless flood can go quiet exactly when no cycle is in reach of its relay. */
  lemma QuietIffAcyclic(g: Tables, m: Message, relay: Addr, logs: map<Addr, seq<Message>>)
    ensures (exists es :: Lossless(es) && Quiet(After(g, Start(m, relay, logs), es)))
            <==> !Cyclic(g, m.headers, relay)
  {
    if Cyclic(g, m.headers, relay) {
      forall es | Lossless(es) ensures !Quiet(After(g, Start(m, relay, logs), es)) {
        CyclicFloodNeverEnds(g, m, relay, logs, es);
      }
    } else {
      var all := DeliverTheRest(g, m, relay, logs, []);
    }
  }

  // ---------- how many copies reach a node ----------

  /** The copies a node received, in order. */
  function ArrivedAt(cs: seq<Copy>, w: Addr): seq<Copy> {
    if cs == [] then [] else
    var last := cs[|cs| - 1];
    ArrivedAt(cs[..|cs| - 1], w) + (if last.dest == w then [last] else [])
  }

  lemma {:induction false} ArrivedCount(cs: seq<Copy>, w: Addr, c: Copy)
    ensures multiset(ArrivedAt(cs, w))[c] == if c.dest == w then multiset(cs)[c] else 0
  {
    if cs != [] {
      var init, last := cs[..|cs| - 1], cs[|cs| - 1];
      assert cs == init + [last];
      ArrivedCount(init, w, c);
    }
  }

  ghost function WalksTo(g: Tables, h: Headers, relay: Addr, w: Addr): set<Trail> {
    set t | t in Walks(g, h, relay, |g.Keys|) && End(g, h, relay, t) == Some(w)
  }

  /** Losses or not, a node never receives more copies than there are walks from the relay to it. */
  lemma CopiesAtMostWalks(g: Tables, m: Message, relay: Addr, n: Net, w: Addr)
    requires Inv(g, m, relay, n) && !Cyclic(g, m.headers, relay)
    ensures |ArrivedAt(n.delivered, w)| <= |WalksTo(g, m.headers, relay, w)|
    ensures Quiet(n) && n.lost == multiset{} ==> |ArrivedAt(n.delivered, w)| == |WalksTo(g, m.headers, relay, w)|
  {
    var arrived, trails := multiset(ArrivedAt(n.delivered, w)), WalksTo(g, m.headers, relay, w);
    forall c ensures c in arrived <==> c in multiset(n.delivered) && c.dest == w {
      ArrivedCount(n.delivered, w, c);
    }
    forall c | c in arrived ensures arrived[c] == 1 && c in All(n) && c.trail in trails {
      assert c in All(n);
      ArrivedCount(n.delivered, w, c);
      WalksAreShort(g, m.headers, relay, c.trail);
    }
    if Quiet(n) && n.lost == multiset{} {
      forall t | t in trails ensures HasTrail(arrived, t) {
        WalksAreShort(g, m.headers, relay, t);
        QuietHasEveryWalk(g, m, relay, n, t);
        var c :| c in multiset(n.delivered) && c.trail == t;
        assert c in All(n);
      }
      AtLeastTrails(arrived, trails);
    }
    AtMostTrails(arrived, trails);
  }

  /** Whatever the order of delivery: a finished lossless flood gave each node one copy for each walk. */
  lemma CopiesEqualWalks(g: Tables, m: Message, relay: Addr, logs: map<Addr, seq<Message>>, es: seq<Event>, w: Addr)
    requires Lossless(es) && Quiet(After(g, Start(m, relay, logs), es))
    ensures |ArrivedAt(After(g, Start(m, relay, logs), es).delivered, w)| == |WalksTo(g, m.headers, relay, w)|
    ensures forall t: Trail :: t in WalksTo(g, m.headers, relay, w) <==> End(g, m.headers, relay, t) == Some(w)
  {
    AlwaysInv(g, m, relay, logs, es);
    LosslessLosesNothing(g, Start(m, relay, logs), es);
    if Cyclic(g, m.headers, relay) {
      CyclicFloodNeverEnds(g, m, relay, logs, es);
    }
    CopiesAtMostWalks(g, m, relay, After(g, Start(m, relay, logs), es), w);
    forall t: Trail ensures t in WalksTo(g, m.headers, relay, w) <==> End(g, m.headers, relay, t) == Some(w) {
      WalksAreShort(g, m.headers, relay, t);
    }
  }

  // ---------- whom a flood reaches ----------

  /** Node v, which is not the addressee, has an entry for w, which is not the originator. */
  ghost predicate Hop(g: Tables, h: Headers, v: Addr, w: Addr) {
    v in g && v != h.dstAddr && w != h.srcAddr && exists id :: id in g[v] && g[v][id].addr == w
  }

  ghost predicate HopsLead(g: Tables, h: Headers, nodes: seq<Addr>) {
    forall k :: 0 <= k < |nodes| - 1 ==> Hop(g, h, nodes[k], nodes[k + 1])
  }

  lemma {:induction false} HopsAreWalks(g: Tables, h: Headers, nodes: seq<Addr>) returns (t: Trail)
    requires nodes != [] && HopsLead(g, h, nodes)
    ensures Visits(g, h, nodes[0], t, nodes)
  {
    if |nodes| == 1 {
      t := [];
    } else {
      var last := |nodes| - 1;
      var init := nodes[..last];
      t := HopsAreWalks(g, h, init);
      assert Hop(g, h, nodes[last - 1], nodes[last]);
      var id :| id in g[nodes[last - 1]] && g[nodes[last - 1]][id].addr == nodes[last];
      VisitsSnoc(g, h, nodes[0], t, init, id, nodes[last]);
      assert init + [nodes[last]] == nodes;
      t := t + [id];
    }
  }

  ghost predicate HopsJoin(g: Tables, h: Headers, relay: Addr, w: Addr) {
    exists nodes: seq<Addr> :: nodes != [] && nodes[0] == relay && nodes[|nodes| - 1] == w && HopsLead(g, h, nodes)
  }

  lemma WalksAreHops(g: Tables, h: Headers, relay: Addr, t: Trail, w: Addr)
    requires End(g, h, relay, t) == Some(w)
    ensures HopsJoin(g, h, relay, w)
  {
    var nodes := WalkVisits(g, h, relay, t);
    forall k | 0 <= k < |nodes| - 1 ensures Hop(g, h, nodes[k], nodes[k + 1]) {
      assert LeadsTo(g, h, nodes[k], t[k], nodes[k + 1]);
    }
  }

  lemma HopsEnd(g: Tables, h: Headers, relay: Addr, w: Addr) returns (t: Trail)
    requires HopsJoin(g, h, relay, w)
    ensures End(g, h, relay, t) == Some(w)
  {
    var nodes: seq<Addr> :|
      nodes != [] && nodes[0] == relay && nodes[|nodes| - 1] == w && HopsLead(g, h, nodes);
    t := HopsAreWalks(g, h, nodes);
    VisitsWalk(g, h, relay, t, nodes);
  }

  /** A finished lossless flood has reached exactly the nodes to which hops lead from the relay. */
  lemma FloodReaches(g: Tables, m: Message, relay: Addr, logs: map<Addr, seq<Message>>, es: seq<Event>, w: Addr)
    requires Lossless(es) && Quiet(After(g, Start(m, relay, logs), es))
    ensures (exists c :: c in After(g, Start(m, relay, logs), es).delivered && c.dest == w)
            <==> HopsJoin(g, m.headers, relay, w)
  {
    var n := After(g, Start(m, relay, logs), es);
    AlwaysInv(g, m, relay, logs, es);
    LosslessLosesNothing(g, Start(m, relay, logs), es);
    if c :| c in n.delivered && c.dest == w {
      assert c in All(n);
      WalksAreHops(g, m.headers, relay, c.trail, w);
    }
    if HopsJoin(g, m.headers, relay, w) {
      var t := HopsEnd(g, m.headers, relay, w);
      QuietHasEveryWalk(g, m, relay, n, t);
      var c :| c in multiset(n.delivered) && c.trail == t;
      assert c in All(n) && c in n.delivered;
    }
  }

  // ---------- trees ----------

  ghost predicate Reachable(g: Tables, h: Headers, relay: Addr, v: Addr) {
    exists t: Trail :: End(g, h, relay, t) == Some(v)
  }

  /** Entry `id` of node v is used by the flood. */
  ghost predicate Used(g: Tables, h: Headers, relay: Addr, v: Addr, id: PeerId) {
    Reachable(g, h, relay, v) && id in Edges(g, h, v)
  }

  /** No used entry leads back to the relay, and no two of them lead to the same node. */
  ghost predicate Tree(g: Tables, h: Headers, relay: Addr) {
    && (forall v, id :: Used(g, h, relay, v, id) ==> g[v][id].addr != relay)
    && (forall u, i, v, j :: Used(g, h, relay, u, i) && Used(g, h, relay, v, j) && g[u][i].addr == g[v][j].addr
          ==> u == v && i == j)
  }

  ghost predicate OneWalkEach(g: Tables, h: Headers, relay: Addr) {
    forall s: Trail, t: Trail :: Walk(g, h, relay, s) && End(g, h, relay, s) == End(g, h, relay, t) ==> s == t
  }

  lemma LastEntry(g: Tables, h: Headers, relay: Addr, t: Trail) returns (v: Addr, id: PeerId)
    requires Walk(g, h, relay, t) && t != []
    ensures t == t[..|t| - 1] + [id] && End(g, h, relay, t[..|t| - 1]) == Some(v)
    ensures Used(g, h, relay, v, id) && End(g, h, relay, t) == Some(g[v][id].addr)
  {
    id := t[|t| - 1];
    v := End(g, h, relay, t[..|t| - 1]).value;
  }

  lemma {:induction false} TreeWalk(g: Tables, h: Headers, relay: Addr, s: Trail, t: Trail)
    requires Tree(g, h, relay) && Walk(g, h, relay, s) && End(g, h, relay, s) == End(g, h, relay, t)
    ensures s == t
  {
    if s != [] {
      var u, i := LastEntry(g, h, relay, s);
      if t != [] {
        var v, j := LastEntry(g, h, relay, t);
        TreeWalk(g, h, relay, s[..|s| - 1], t[..|t| - 1]);
      }
    } else if t != [] {
      var v, j := LastEntry(g, h, relay, t);
    }
  }

  lemma UsedWalk(g: Tables, h: Headers, relay: Addr, v: Addr, id: PeerId) returns (t: Trail)
    requires Used(g, h, relay, v, id)
    ensures End(g, h, relay, t) == Some(v) && End(g, h, relay, t + [id]) == Some(g[v][id].addr)
  {
    t :| End(g, h, relay, t) == Some(v);
    EndSnoc(g, h, relay, t, id);
  }

  lemma TreeIffOneWalkEach(g: Tables, h: Headers, relay: Addr)
    ensures Tree(g, h, relay) <==> OneWalkEach(g, h, relay)
  {
    if Tree(g, h, relay) {
      forall s: Trail, t: Trail | Walk(g, h, relay, s) && End(g, h, relay, s) == End(g, h, relay, t) ensures s == t {
        TreeWalk(g, h, relay, s, t);
      }
    }
    if OneWalkEach(g, h, relay) {
      forall v, id | Used(g, h, relay, v, id) ensures g[v][id].addr != relay {
        var t := UsedWalk(g, h, relay, v, id);
        assert End(g, h, relay, []) == Some(relay);
      }
      forall u, i, v, j | Used(g, h, relay, u, i) && Used(g, h, relay, v, j) && g[u][i].addr == g[v][j].addr
        ensures u == v && i == j
      {
        var s := UsedWalk(g, h, relay, u, i);
        var t := UsedWalk(g, h, relay, v, j);
        assert s + [i] == t + [j];
        assert s == (s + [i])[..|s|] && t == (t + [j])[..|t|];
      }
    }
  }

  lemma CycleGivesTwoWalks(g: Tables, h: Headers, relay: Addr, p: Trail, c: Trail)
    requires Cycle(g, h, relay, p, c)
    ensures !OneWalkEach(g, h, relay)
  {
    EndJoin(g, h, relay, p, c);
    assert |p + c| > |p|;
  }

  lemma TreeIsAcyclic(g: Tables, h: Headers, relay: Addr)
    requires Tree(g, h, relay)
    ensures !Cyclic(g, h, relay)
  {
    TreeIffOneWalkEach(g, h, relay);
    forall p: Trail, c: Trail ensures !Cycle(g, h, relay, p, c) {
      if Cycle(g, h, relay, p, c) {
        CycleGivesTwoWalks(g, h, relay, p, c);
      }
    }
  }

  lemma TreeHasOneWalkTo(g: Tables, h: Headers, relay: Addr, w: Addr)
    requires Tree(g, h, relay)
    ensures |WalksTo(g, h, relay, w)| == if Reachable(g, h, relay, w) then 1 else 0
  {
    TreeIsAcyclic(g, h, relay);
    forall t: Trail ensures t in WalksTo(g, h, relay, w) <==> End(g, h, relay, t) == Some(w) {
      WalksAreShort(g, h, relay, t);
    }
    if t: Trail :| End(g, h, relay, t) == Some(w) {
      forall s: Trail | End(g, h, relay, s) == Some(w) ensures s == t {
        TreeWalk(g, h, relay, s, t);
      }
      assert WalksTo(g, h, relay, w) == {t};
    } else {
      assert WalksTo(g, h, relay, w) == {};
    }
  }

  lemma ElsewhereTwoWalks(g: Tables, h: Headers, relay: Addr) returns (w: Addr)
    requires !Tree(g, h, relay) && !Cyclic(g, h, relay)
    ensures |WalksTo(g, h, relay, w)| >= 2
  {
    TreeIffOneWalkEach(g, h, relay);
    var s: Trail, t: Trail :| Walk(g, h, relay, s) && End(g, h, relay, s) == End(g, h, relay, t) && s != t;
    w := End(g, h, relay, s).value;
    WalksAreShort(g, h, relay, s);
    WalksAreShort(g, h, relay, t);
    SubsetSize({s, t}, WalksTo(g, h, relay, w));
  }

  /** A lossless flood ends with one copy at each node in reach, and none elsewhere, on trees only. */
  lemma ExactlyOneCopyIffTree(g: Tables, m: Message, relay: Addr, logs: map<Addr, seq<Message>>, es: seq<Event>)
    requires Lossless(es) && Quiet(After(g, Start(m, relay, logs), es))
    ensures
      Tree(g, m.headers, relay)
      <==> forall w :: |ArrivedAt(After(g, Start(m, relay, logs), es).delivered, w)|
                       == if Reachable(g, m.headers, relay, w) then 1 else 0
  {
    var delivered, h := After(g, Start(m, relay, logs), es).delivered, m.headers;
    forall w ensures |ArrivedAt(delivered, w)| == |WalksTo(g, h, relay, w)| {
      CopiesEqualWalks(g, m, relay, logs, es, w);
    }
    if Tree(g, h, relay) {
      forall w ensures |ArrivedAt(delivered, w)| == if Reachable(g, h, relay, w) then 1 else 0 {
        TreeHasOneWalkTo(g, h, relay, w);
      }
    } else {
      QuietIffAcyclic(g, m, relay, logs);
      var w := ElsewhereTwoWalks(g, h, relay);
      assert |ArrivedAt(delivered, w)| >= 2;
    }
  }

  lemma {:induction false} SubsetSize(a: set<Trail>, b: set<Trail>)
    requires a <= b
    ensures |a| <= |b|
  {
    if a != {} {
      var t :| t in a;
      SubsetSize(a - {t}, b - {t});
    }
  }

  // ---------- what every copy is ----------

  lemma CopyIsFaithful(g: Tables, m: Message, relay: Addr, logs: map<Addr, seq<Message>>, es: seq<Event>, c: Copy)
    requires c in All(After(g, Start(m, relay, logs), es))
    ensures Faithful(g, m, relay, c)
  {
    AlwaysInv(g, m, relay, logs, es);
  }

  /**
   * The flood while nodes register and are pruned: gs[k] are the tables at event k. With the same
   * tables throughout this is `After`.
   */
  ghost function AfterWith(gs: seq<Tables>, start: Net, es: seq<Event>): Net
    requires |gs| == |es|
  {
    if es == [] then start else
    var last := |es| - 1;
    Apply(gs[last], AfterWith(gs[..last], start, es[..last]), es[last])
  }

  lemma {:induction false} FixedTables(g: Tables, start: Net, es: seq<Event>)
    ensures After(g, start, es) == AfterWith(seq(|es|, _ => g), start, es)
  {
    if es != [] {
      var last := |es| - 1;
      FixedTables(g, start, es[..last]);
      assert seq(|es|, _ => g)[..last] == seq(last, _ => g);
    }
  }

  /** The message but for its last hop, on its way to somebody else than its originator. */
  ghost predicate Outbound(m: Message, relay: Addr, c: Copy) {
    c.msg == m.(lastHop := c.msg.lastHop) && (relay != m.headers.srcAddr ==> c.dest != m.headers.srcAddr)
  }

  lemma {:induction false} CopiesAreOutbound(gs: seq<Tables>, m: Message, relay: Addr, logs: map<Addr, seq<Message>>,
                                             es: seq<Event>)
    requires |gs| == |es|
    ensures forall c <- All(AfterWith(gs, Start(m, relay, logs), es)) :: Outbound(m, relay, c)
  {
    if es != [] {
      var last := |es| - 1;
      CopiesAreOutbound(gs[..last], m, relay, logs, es[..last]);
      EventKeepsOutbound(gs[last], AfterWith(gs[..last], Start(m, relay, logs), es[..last]), es[last], m, relay);
    }
  }

  lemma EventKeepsOutbound(g: Tables, n: Net, e: Event, m: Message, relay: Addr)
    requires forall c <- All(n) :: Outbound(m, relay, c)
    ensures forall c <- All(Apply(g, n, e)) :: Outbound(m, relay, c)
  {
    if e.c in n.flying {
      assert e.c in All(n);
      forall c | c in All(Apply(g, n, e)) ensures Outbound(m, relay, c) {
        if c !in All(n) {
          assert c in Forwards(g, e.c);
        }
      }
    }
  }

  /**
   * In every topology, whatever is lost, and however the tables change meanwhile: no copy ever goes to
   * the originator.
   */
  lemma OriginatorIsSpared(gs: seq<Tables>, m: Message, relay: Addr, logs: map<Addr, seq<Message>>, es: seq<Event>,
                           c: Copy)
    requires |gs| == |es| && relay != m.headers.srcAddr
    requires c in All(AfterWith(gs, Start(m, relay, logs), es))
    ensures c.dest != m.headers.srcAddr
  {
    CopiesAreOutbound(gs, m, relay, logs, es);
  }

  /** Every copy, after any number of hops and over any tables, is the original but for the last hop. */
  lemma CopiesKeepTheMessage(gs: seq<Tables>, m: Message, relay: Addr, logs: map<Addr, seq<Message>>, es: seq<Event>,
                             c: Copy)
    requires |gs| == |es| && c in All(AfterWith(gs, Start(m, relay, logs), es))
    ensures c.msg == m.(lastHop := c.msg.lastHop)
  {
    CopiesAreOutbound(gs, m, relay, logs, es);
  }

  // ---------- what the nodes log ----------

  /** Every entry of the message in a log is the message but for its last hop. */
  ghost predicate SameMessage(ms: seq<Message>, m: Message) {
    forall x <- ms :: x.headers == m.headers && x.payload == m.payload
  }

  /**
   * A node's log of a flood: nothing before the first copy arrives; then that copy first of all, and
   * for every copy received the copy itself and one entry for every peer it was sent on to.
   */
  ghost predicate FloodLog(g: Tables, m: Message, v: Addr, arrived: seq<Copy>, tail: seq<Message>) {
    && SameMessage(tail, m)
    && |tail| == |arrived| * (1 + |Edges(g, m.headers, v)|)
    && (arrived != [] ==> tail != [] && tail[0] == arrived[0].msg)
  }

  lemma {:induction false} LogOfFlood(g: Tables, m: Message, relay: Addr, logs: map<Addr, seq<Message>>,
                                      es: seq<Event>, v: Addr)
    returns (tail: seq<Message>)
    requires v in logs
    ensures var n := After(g, Start(m, relay, logs), es);
            && v in n.logs && n.logs[v] == logs[v] + tail
            && FloodLog(g, m, v, ArrivedAt(n.delivered, v), tail)
  {
    if es == [] {
      tail := [];
      assert logs[v] + [] == logs[v];
    } else {
      var init, e := es[..|es| - 1], es[|es| - 1];
      var before := After(g, Start(m, relay, logs), init);
      tail := LogOfFlood(g, m, relay, logs, init, v);
      if e.c in before.flying {
        assert e.c in All(before);
        CopyIsFaithful(g, m, relay, logs, init, e.c);
        tail := LogAfterEvent(g, m, v, logs[v], before, e, tail);
      }
    }
  }

  lemma LogAfterEvent(g: Tables, m: Message, v: Addr, prior: seq<Message>, n: Net, e: Event, tail: seq<Message>)
    returns (grown: seq<Message>)
    requires e.c in n.flying && e.c.msg.headers == m.headers && e.c.msg.payload == m.payload
    requires v in n.logs && n.logs[v] == prior + tail && FloodLog(g, m, v, ArrivedAt(n.delivered, v), tail)
    ensures v in Apply(g, n, e).logs && Apply(g, n, e).logs[v] == prior + grown
    ensures FloodLog(g, m, v, ArrivedAt(Apply(g, n, e).delivered, v), grown)
  {
    grown := tail;
    if e.Deliver? {
      assert (n.delivered + [e.c])[..|n.delivered|] == n.delivered;
      if e.c.dest == v {
        var more := [e.c.msg] + Echo(e.c.msg, v, Edges(g, m.headers, v));
        grown := LogGrows(g, m, v, ArrivedAt(n.delivered, v), tail, e.c, more);
        assert prior + (tail + more) == n.logs[v] + more;
        assert n.logs[v] + [e.c.msg] + Echo(e.c.msg, v, Edges(g, m.headers, v)) == n.logs[v] + more;
      } else {
        assert ArrivedAt(n.delivered + [e.c], v) == ArrivedAt(n.delivered, v);
      }
    }
  }

  lemma LogGrows(g: Tables, m: Message, v: Addr, arrived: seq<Copy>, tail: seq<Message>, c: Copy, more: seq<Message>)
    returns (grown: seq<Message>)
    requires FloodLog(g, m, v, arrived, tail)
    requires c.msg.headers == m.headers && c.msg.payload == m.payload
    requires more == [c.msg] + Echo(c.msg, v, Edges(g, m.headers, v))
    ensures grown == tail + more && FloodLog(g, m, v, arrived + [c], grown)
  {
    grown := tail + more;
    var size := 1 + |Edges(g, m.headers, v)|;
    assert (|arrived| + 1) * size == |arrived| * size + size;
  }
}
