/** The NAT detector: its probes, its answer, and the NATs and firewalls it is meant to tell apart. */
module Nat {
  import opened Types

  datatype NatType =
    | UdpBlocked | OpenInternet | SymmetricUdpFirewall
    | FullCone | RestrictedCone | PortRestrictedCone | Symmetric | Unknown
  {
    function Weight(): nat {
      match this
      case UdpBlocked => 1
      case OpenInternet => 7
      case SymmetricUdpFirewall => 2
      case FullCone => 6
      case RestrictedCone => 5
      case PortRestrictedCone => 4
      case Symmetric => 3
      case Unknown => 0
    }
  }

  const RETRY_COUNT := 2

  /** A binding request to an address, asking for the answer to come from elsewhere. */
  datatype Query = Query(dest: Addr, changeIp: bool, changePort: bool)

  datatype Answer = Answer(mapped: Option<Addr>, changed: Option<Addr>)

  /** What a wait of one second brings. */
  datatype Datagram = Silence | Undecodable | ErrorResponse | OtherTransaction | Good(answer: Answer)

  /** The network as the socket sees it: each request changes its state and brings one datagram. */
  type Network<!W> = (W, Query) -> (W, Datagram)

  function SendUpTo<W>(net: Network<W>, w: W, q: Query, tries: nat): (W, Option<Answer>) {
    if tries == 0 then (w, None) else
    var (next, datagram) := net(w, q);
    match datagram
    case Good(answer) => (next, Some(answer))
    case ErrorResponse => (next, None)
    case _ => SendUpTo(net, next, q, tries - 1)
  }

  method SingleSend<W>(net: Network<W>, w: W, q: Query) returns (end: W, answer: Option<Answer>)
    ensures (end, answer) == SendUpTo(net, w, q, RETRY_COUNT)
  {
    end, answer := w, None;
    for i := 0 to RETRY_COUNT
      invariant SendUpTo(net, w, q, RETRY_COUNT) == SendUpTo(net, end, q, RETRY_COUNT - i)
      invariant answer == None
    {
      var (next, datagram) := net(end, q);
      match datagram {
        case Good(a) => return next, Some(a);
        case ErrorResponse => return next, None;
        case _ => end := next;
      }
    }
  }

  datatype Verdict = Verdict(publicAddr: Addr, natType: NatType)

  /** The verdict the probes lead to; None is an answer without the attribute that was needed. */
  function Detected<W>(net: Network<W>, w: W, localIp: Ip, server: Addr): Option<Verdict> {
    var (w1, test1) := SendUpTo(net, w, Query(server, false, false), RETRY_COUNT);
    match test1
    case None => Some(Verdict(EVERYBODY, UdpBlocked))
    case Some(Answer(Some(mapped), Some(changed))) =>
      var (w2, test2) := SendUpTo(net, w1, Query(server, true, true), RETRY_COUNT);
      if mapped.ip == localIp then
        Some(Verdict(mapped, if test2.None? then OpenInternet else SymmetricUdpFirewall))
      else if test2.Some? then Some(Verdict(mapped, FullCone))
      else
        var (w3, test12) := SendUpTo(net, w2, Query(changed, false, false), RETRY_COUNT);
        (match test12
         case None => Some(Verdict(mapped, Unknown))
         case Some(Answer(None, _)) => None
         case Some(Answer(Some(mapped2), _)) =>
           if mapped2 != mapped then Some(Verdict(mapped, Symmetric))
           else
             var (w4, test3) := SendUpTo(net, w3, Query(changed, false, true), RETRY_COUNT);
             Some(Verdict(mapped, if test3.None? then PortRestrictedCone else RestrictedCone)))
    case Some(_) => None
  }

  method NatDetect<W>(net: Network<W>, start: W, localIp: Ip, server: Addr) returns (verdict: Option<Verdict>)
    ensures verdict == Detected(net, start, localIp, server)
  {
    var w, test1 := SingleSend(net, start, Query(server, false, false));
    if test1.None? {
      return Some(Verdict(EVERYBODY, UdpBlocked));
    }
    if test1.value.mapped.None? || test1.value.changed.None? {
      return None;
    }
    var mapped, changed := test1.value.mapped.value, test1.value.changed.value;
    var test2, test12, test3;
    w, test2 := SingleSend(net, w, Query(server, true, true));
    if mapped.ip == localIp {
      return Some(Verdict(mapped, if test2.None? then OpenInternet else SymmetricUdpFirewall));
    }
    if test2.Some? {
      return Some(Verdict(mapped, FullCone));
    }
    w, test12 := SingleSend(net, w, Query(changed, false, false));
    if test12.None? {
      return Some(Verdict(mapped, Unknown));
    }
    if test12.value.mapped.None? {
      return None;
    }
    if test12.value.mapped.value != mapped {
      return Some(Verdict(mapped, Symmetric));
    }
    w, test3 := SingleSend(net, w, Query(changed, false, true));
    verdict := Some(Verdict(mapped, if test3.None? then PortRestrictedCone else RestrictedCone));
  }

  // ---------- probes without an answer ----------

  /** A probe brings nothing: the first try brings an error, or both tries bring nothing usable. */
  predicate BringsNothing<W>(net: Network<W>, w: W, q: Query) {
    var (second, first) := net(w, q);
    first.ErrorResponse? || (!first.Good? && !net(second, q).1.Good?)
  }

  /** Where a probe leaves the network: after the first try if that decides it, else after the second. */
  function AfterProbe<W>(net: Network<W>, w: W, q: Query): W {
    var (second, first) := net(w, q);
    if first.Good? || first.ErrorResponse? then second else net(second, q).0
  }

  lemma ProbeMeaning<W>(net: Network<W>, w: W, q: Query)
    ensures var (end, answer) := SendUpTo(net, w, q, RETRY_COUNT);
            && end == AfterProbe(net, w, q)
            && (answer.None? <==> BringsNothing(net, w, q))
            && (answer.Some? ==> Good(answer.value) in {net(w, q).1, net(net(w, q).0, q).1})
  {
    var (second, first) := net(w, q);
    assert SendUpTo(net, second, q, 1)
        == match net(second, q).1 case Good(a) => (net(second, q).0, Some(a)) case _ => (net(second, q).0, None);
  }

  /** On any network: UDP is reported as blocked exactly when the first probe brings nothing. */
  lemma BlockedIff<W>(net: Network<W>, w: W, localIp: Ip, server: Addr)
    ensures (Detected(net, w, localIp, server).Some? && Detected(net, w, localIp, server).value.natType.UdpBlocked?)
            <==> BringsNothing(net, w, Query(server, false, false))
    ensures BringsNothing(net, w, Query(server, false, false)) ==>
              Detected(net, w, localIp, server) == Some(Verdict(EVERYBODY, UdpBlocked))
  {
    ProbeMeaning(net, w, Query(server, false, false));
  }

  /**
   * On any network: the type is unknown exactly when the first probe is answered by a server that names
   * another address of its own, the address it saw is not the host's, and then neither the probe for an
   * answer from elsewhere nor the probe of that other address brings anything.
   */
  lemma UnknownIff<W>(net: Network<W>, w: W, localIp: Ip, server: Addr)
    ensures
      (Detected(net, w, localIp, server).Some? && Detected(net, w, localIp, server).value.natType.Unknown?)
      <==> exists mapped: Addr, other: Addr ::
             && FirstAnswer(net, w, Query(server, false, false), Answer(Some(mapped), Some(other)))
             && mapped.ip != localIp
             && var w1 := AfterProbe(net, w, Query(server, false, false));
                BringsNothing(net, w1, Query(server, true, true))
                && BringsNothing(net, AfterProbe(net, w1, Query(server, true, true)), Query(other, false, false))
  {
    var first, second := Query(server, false, false), Query(server, true, true);
    ProbeMeaning(net, w, first);
    var w1 := AfterProbe(net, w, first);
    ProbeMeaning(net, w1, second);
    var w2 := AfterProbe(net, w1, second);
    FirstAnswerMeaning(net, w, first);
    match SendUpTo(net, w, first, RETRY_COUNT).1
    case Some(Answer(Some(mapped), Some(other))) => ProbeMeaning(net, w2, Query(other, false, false));
    case _ =>
  }

  /**
   * On any network: there is no verdict exactly when an answer lacks what the next step needs, the
   * first one an address seen or another address of the server, the plain one from there an address seen.
   */
  lemma NoVerdictIff<W>(net: Network<W>, w: W, localIp: Ip, server: Addr)
    ensures
      Detected(net, w, localIp, server) == None
      <==> exists a: Answer ::
             && FirstAnswer(net, w, Query(server, false, false), a)
             && (a.mapped.None? || a.changed.None? ||
                 (a.mapped.value.ip != localIp
                  && var w1 := AfterProbe(net, w, Query(server, false, false));
                     var w2 := AfterProbe(net, w1, Query(server, true, true));
                     BringsNothing(net, w1, Query(server, true, true))
                     && exists b: Answer ::
                          FirstAnswer(net, w2, Query(a.changed.value, false, false), b) && b.mapped.None?))
  {
    var first, second := Query(server, false, false), Query(server, true, true);
    ProbeMeaning(net, w, first);
    FirstAnswerMeaning(net, w, first);
    var w1 := AfterProbe(net, w, first);
    ProbeMeaning(net, w1, second);
    var w2 := AfterProbe(net, w1, second);
    match SendUpTo(net, w, first, RETRY_COUNT).1
    case Some(Answer(Some(mapped), Some(other))) =>
      ProbeMeaning(net, w2, Query(other, false, false));
      FirstAnswerMeaning(net, w2, Query(other, false, false));
    case _ =>
  }

  /** The first usable datagram, of at most two, holds this answer. */
  predicate FirstAnswer<W>(net: Network<W>, w: W, q: Query, a: Answer) {
    var (second, first) := net(w, q);
    first == Good(a) || (!first.Good? && !first.ErrorResponse? && net(second, q).1 == Good(a))
  }

  lemma FirstAnswerMeaning<W>(net: Network<W>, w: W, q: Query)
    ensures forall a :: FirstAnswer(net, w, q, a) <==> SendUpTo(net, w, q, RETRY_COUNT).1 == Some(a)
  {
    var (second, first) := net(w, q);
    assert SendUpTo(net, second, q, 1)
        == match net(second, q).1 case Good(a) => (net(second, q).0, Some(a)) case _ => (net(second, q).0, None);
  }

  // ---------- NATs, firewalls and a STUN server ----------

  /** From whom a packet to the outside address of a socket is let in. */
  datatype Filter = Anyone | ContactedIp | ContactedAddr

  /**
   * What lies between a socket and the network: the outside address it shows to each destination, the
   * filter on incoming packets, and the destinations contacted so far.
   */
  datatype Box = Box(outside: Addr -> Addr, filter: Filter, contacted: set<Addr>) {

    /** These destinations all see the same outside address. */
    ghost predicate SameFor(used: set<Addr>) { forall d <- used, e <- used :: outside(d) == outside(e) }

    /** Each of these destinations sees an outside address of its own. */
    ghost predicate OneForEach(used: set<Addr>) { forall d <- used, e <- used :: outside(d) == outside(e) ==> d == e }

    /** The box has one address on its outside, and tells flows apart by their ports. */
    ghost predicate HasOneIp(ip: Ip) { forall d: Addr :: outside(d).ip == ip }

    /** A packet from `src` to outside address `to` reaches the socket. */
    predicate LetsIn(src: Addr, to: Addr) {
      exists d <- contacted ::
        && outside(d) == to
        && (filter == Anyone || (filter == ContactedIp && d.ip == src.ip) || d == src)
    }
  }

  /**
   * A server with two addresses and two ports, as section 10.1 of RFC 3489 needs it. Where it is down,
   * nothing arrives and nothing is sent.
   */
  datatype Server = Server(ip1: Ip, ip2: Ip, port1: U16, port2: U16, down: set<Addr>) {

    predicate Valid() { ip1 != ip2 && port1 != port2 }

    function Primary(): Addr { Addr(ip1, port1) }

    function Secondary(): Addr { Addr(ip2, port2) }

    predicate Owns(a: Addr) { a.ip in {ip1, ip2} && a.port in {port1, port2} }

    function Other(a: Addr, ip: bool, port: bool): Addr {
      Addr(if !ip then a.ip else if a.ip == ip1 then ip2 else ip1,
           if !port then a.port else if a.port == port1 then port2 else port1)
    }

    predicate Reaches(q: Query) {
      Owns(q.dest) && q.dest !in down && Other(q.dest, q.changeIp, q.changePort) !in down
    }

    /** No packet is lost; a request that reaches the server is answered from where it asks. */
    function Network(): Network<Box> {
      (box: Box, q: Query) =>
        var after := box.(contacted := box.contacted + {q.dest});
        var mapped := box.outside(q.dest);
        (after,
         if Reaches(q) && after.LetsIn(Other(q.dest, q.changeIp, q.changePort), mapped)
         then Good(Answer(Some(mapped), Some(Other(q.dest, true, true))))
         else Silence)
    }
  }

  /** The socket is new: nothing was sent yet from it to the server's second IP address. */
  ghost predicate Untried(box: Box, s: Server) { forall d <- box.contacted :: d.ip != s.ip2 }

  /** Asking again brings what asking once brought: silence stays silence. */
  lemma ProbeOnce(s: Server, box: Box, q: Query)
    requires s.Owns(q.dest)
    ensures
      var after := box.(contacted := box.contacted + {q.dest});
      SendUpTo(s.Network(), box, q, RETRY_COUNT)
      == (after,
          if s.Reaches(q) && after.LetsIn(s.Other(q.dest, q.changeIp, q.changePort), box.outside(q.dest))
          then Some(Answer(Some(box.outside(q.dest)), Some(s.Other(q.dest, true, true))))
          else None)
  {
    var after := box.(contacted := box.contacted + {q.dest});
    assert after.(contacted := after.contacted + {q.dest}) == after;
    assert SendUpTo(s.Network(), after, q, 0) == (after, None);
    if !(s.Reaches(q) && after.LetsIn(s.Other(q.dest, q.changeIp, q.changePort), box.outside(q.dest))) {
      assert s.Network()(box, q) == (after, Silence) && s.Network()(after, q) == (after, Silence);
      assert SendUpTo(s.Network(), after, q, 1) == (after, None);
    }
  }

  /** The answer to a plain request always comes back: its sender was just contacted. */
  lemma PlainProbeAnswered(s: Server, box: Box, dest: Addr)
    ensures box.(contacted := box.contacted + {dest}).LetsIn(s.Other(dest, false, false), box.outside(dest))
  {
    assert dest in box.contacted + {dest};
  }

  /** What the two probes that ask for another sender find, whatever the mapping. */
  lemma ProbeResults(s: Server, box: Box)
    requires s.Valid() && Untried(box, s)
    ensures
      var first, second := s.Primary(), s.Secondary();
      var box1 := box.(contacted := box.contacted + {first});
      var box2 := box1.(contacted := box1.contacted + {second});
      && (box1.LetsIn(second, box.outside(first)) <==> box.filter == Anyone)
      && (box.outside(first) == box.outside(second) && box.filter != Anyone ==>
            (box2.LetsIn(s.Other(second, false, true), box.outside(second)) <==> box.filter == ContactedIp))
  {
    var first, second := s.Primary(), s.Secondary();
    assert first in box.contacted + {first};
    assert second in box.contacted + {first} + {second};
  }

  /**
   * Behind any box that changes the address the answer is about the filter, about what the two
   * addresses of the server see, and about where the server is down. UDP is blocked when the first
   * address does not answer. A filter that lets anyone in gives a full cone, unless the second address
   * is down; then the type is unknown, whatever the box. Otherwise two outside addresses give a
   * symmetric NAT, and a common one a restricted or a port-restricted cone.
   */
  lemma BehindNat(s: Server, box: Box, localIp: Ip)
    requires s.Valid() && Untried(box, s) && box.outside(s.Primary()).ip != localIp
    ensures
      Detected(s.Network(), box, localIp, s.Primary())
      == if s.Primary() in s.down then Some(Verdict(EVERYBODY, UdpBlocked))
         else Some(Verdict(box.outside(s.Primary()),
                           if s.Secondary() in s.down then Unknown
                           else if box.filter == Anyone then FullCone
                           else if box.outside(s.Primary()) != box.outside(s.Secondary()) then Symmetric
                           else if box.filter == ContactedIp && s.Other(s.Secondary(), false, true) !in s.down
                           then RestrictedCone
                           else PortRestrictedCone))
  {
    var first, second := s.Primary(), s.Secondary();
    var box1 := box.(contacted := box.contacted + {first});
    var box2 := box1.(contacted := box1.contacted + {second});
    ProbeOnce(s, box, Query(first, false, false));
    PlainProbeAnswered(s, box, first);
    ProbeOnce(s, box1, Query(first, true, true));
    assert box1.(contacted := box1.contacted + {first}) == box1;
    ProbeOnce(s, box1, Query(second, false, false));
    PlainProbeAnswered(s, box1, second);
    ProbeOnce(s, box2, Query(second, false, true));
    assert box2.(contacted := box2.contacted + {second}) == box2;
    ProbeResults(s, box);
  }

  /** The NAT types of section 5 of RFC 3489, as they show towards the destinations in use. */
  ghost predicate IsNatOfType(box: Box, t: NatType, used: set<Addr>) {
    match t
    case FullCone => box.SameFor(used) && box.filter == Anyone
    case RestrictedCone => box.SameFor(used) && box.filter == ContactedIp
    case PortRestrictedCone => box.SameFor(used) && box.filter == ContactedAddr
    case Symmetric => box.OneForEach(used) && box.filter == ContactedAddr
    case _ => false
  }

  /** With a server that is up, a NAT of a type of RFC 3489 is found to be of that type, and of no other. */
  lemma NatIsClassified(s: Server, box: Box, localIp: Ip, t: NatType, used: set<Addr>)
    requires s.Valid() && s.down == {} && Untried(box, s) && box.outside(s.Primary()).ip != localIp
    requires s.Primary() in used && s.Secondary() in used
    requires exists u :: IsNatOfType(box, u, used)
    ensures Detected(s.Network(), box, localIp, s.Primary()) == Some(Verdict(box.outside(s.Primary()), t))
            <==> IsNatOfType(box, t, used)
  {
    BehindNat(s, box, localIp);
    assert s.Primary() != s.Secondary();
  }

  /** Ports below |used|, one for each destination. */
  lemma {:induction false} PortForEach(used: set<Addr>) returns (ports: map<Addr, nat>)
    ensures ports.Keys == used && forall d <- used :: ports[d] < |used|
    ensures forall d <- used, e <- used :: ports[d] == ports[e] ==> d == e
  {
    if used == {} {
      ports := map[];
    } else {
      var d :| d in used;
      var rest := PortForEach(used - {d});
      ports := rest[d := |rest|];
      assert |rest| == |rest.Keys|;
    }
  }

  lemma {:induction false} PortsInUse(outside: Addr -> Addr, used: set<Addr>, bound: nat)
    requires forall d <- used, e <- used :: outside(d).port == outside(e).port ==> d == e
    requires forall d <- used :: outside(d).port < bound
    ensures |used| <= bound
  {
    if d :| d in used && outside(d).port == bound - 1 {
      assert forall e <- used - {d} :: outside(e).port != bound - 1;
      PortsInUse(outside, used - {d}, bound - 1);
    } else if used != {} {
      var e :| e in used;
      assert outside(e).port < bound - 1;
      PortsInUse(outside, used, bound - 1);
    }
  }

  /** A symmetric NAT can do with one outside IP address exactly for as many destinations as ports. */
  lemma OneIpSuffices(ip: Ip, used: set<Addr>, contacted: set<Addr>)
    ensures (exists outside: Addr -> Addr ::
               var box := Box(outside, ContactedAddr, contacted);
               box.HasOneIp(ip) && IsNatOfType(box, Symmetric, used))
            <==> |used| <= 0x1_0000
  {
    if outside: Addr -> Addr :|
        var box := Box(outside, ContactedAddr, contacted); box.HasOneIp(ip) && IsNatOfType(box, Symmetric, used) {
      forall d <- used, e <- used | outside(d).port == outside(e).port ensures d == e {
        assert outside(d).ip == outside(e).ip;
      }
      PortsInUse(outside, used, 0x1_0000);
    }
    if |used| <= 0x1_0000 {
      var ports := PortForEach(used);
      var outside: Addr -> Addr := d => Addr(ip, if d in ports && ports[d] < 0x1_0000 then ports[d] else 0);
      var box := Box(outside, ContactedAddr, contacted);
      assert box.HasOneIp(ip) && IsNatOfType(box, Symmetric, used);
    }
  }

  /**
   * Without a NAT the answer is the wrong way round: a host that anyone can reach is called a host
   * behind a symmetric firewall, and every host behind a firewall is called open.
   */
  lemma WithoutNatSwapped(s: Server, box: Box, local: Addr)
    requires s.Valid() && Untried(box, s) && forall d: Addr :: box.outside(d) == local
    ensures Detected(s.Network(), box, local.ip, s.Primary())
         == if s.Primary() in s.down then Some(Verdict(EVERYBODY, UdpBlocked))
            else Some(Verdict(local, if box.filter == Anyone && s.Secondary() !in s.down then SymmetricUdpFirewall
                                     else OpenInternet))
  {
    var first := s.Primary();
    var box1 := box.(contacted := box.contacted + {first});
    ProbeOnce(s, box, Query(first, false, false));
    PlainProbeAnswered(s, box, first);
    ProbeOnce(s, box1, Query(first, true, true));
    assert box1.(contacted := box1.contacted + {first}) == box1;
    ProbeResults(s, box);
  }

  // ---------- several servers ----------

  lemma WeightsDiffer(a: NatType, b: NatType)
    requires a.Weight() == b.Weight()
    ensures a == b
  {}

  /** The heaviest type among the verdicts; None when no probe gave one. */
  ghost predicate IsHeaviest(verdicts: seq<Option<Verdict>>, t: NatType) {
    && (exists v :: Some(v) in verdicts && v.natType == t)
    && (forall v :: Some(v) in verdicts ==> v.natType.Weight() <= t.Weight())
  }

  /** The types, each before those that are preferred to it. */
  const RANKING := [Unknown, UdpBlocked, SymmetricUdpFirewall, Symmetric,
                    PortRestrictedCone, RestrictedCone, FullCone, OpenInternet]

  /** The type reported for several servers is the last of the ranking that one of them gave. */
  lemma HeaviestIsLastInRanking(verdicts: seq<Option<Verdict>>, k: nat)
    requires k < |RANKING|
    ensures IsHeaviest(verdicts, RANKING[k])
            <==> && (exists v :: Some(v) in verdicts && v.natType == RANKING[k])
                 && (forall j, v :: k < j < |RANKING| && Some(v) in verdicts ==> v.natType != RANKING[j])
  {
    assert forall j :: 0 <= j < |RANKING| ==> RANKING[j].Weight() == j;
    forall v | Some(v) in verdicts ensures RANKING[v.natType.Weight()] == v.natType {}
  }

  /** The last public address that was found. */
  function LastAddr(verdicts: seq<Option<Verdict>>): Addr {
    if verdicts == [] then EVERYBODY else
    match verdicts[|verdicts| - 1]
    case Some(v) => if v.publicAddr != EVERYBODY then v.publicAddr else LastAddr(verdicts[..|verdicts| - 1])
    case None => LastAddr(verdicts[..|verdicts| - 1])
  }

  method Reduce(verdicts: seq<Option<Verdict>>) returns (result: Option<Verdict>)
    ensures result.None? <==> forall v <- verdicts :: v.None?
    ensures result.Some? ==> IsHeaviest(verdicts, result.value.natType) && result.value.publicAddr == LastAddr(verdicts)
  {
    var counts: map<NatType, nat> := map[];
    var publicAddr := EVERYBODY;
    for i := 0 to |verdicts|
      invariant forall t :: t in counts <==> exists v :: Some(v) in verdicts[..i] && v.natType == t
      invariant publicAddr == LastAddr(verdicts[..i])
    {
      assert verdicts[..i + 1] == verdicts[..i] + [verdicts[i]];
      assert verdicts[..i + 1][..i] == verdicts[..i];
      if verdicts[i].Some? {
        var Verdict(p, t) := verdicts[i].value;
        if p != EVERYBODY {
          publicAddr := p;
        }
        counts := counts[t := if t in counts then counts[t] + 1 else 1];
      }
    }
    assert verdicts[..|verdicts|] == verdicts;
    var rest := counts.Keys;
    if rest == {} {
      assert forall v :: Some(v) in verdicts ==> v.natType in counts;
      return None;
    }
    var best :| best in rest;
    while rest != {}
      invariant rest <= counts.Keys && best in counts
      invariant forall t <- counts :: t in rest || t.Weight() <= best.Weight()
    {
      var t :| t in rest;
      if t.Weight() >= best.Weight() {
        best := t;
      }
      rest := rest - {t};
    }
    ghost var v :| Some(v) in verdicts && v.natType == best;
    assert forall v :: Some(v) in verdicts ==> v.natType in counts;
    result := Some(Verdict(publicAddr, best));
  }

  /** The type does not depend on the order in which the servers answer. */
  lemma HeaviestIgnoresOrder(a: seq<Option<Verdict>>, b: seq<Option<Verdict>>, s: NatType, t: NatType)
    requires multiset(a) == multiset(b) && IsHeaviest(a, s) && IsHeaviest(b, t)
    ensures s == t
  {
    assert forall v :: v in a <==> v in multiset(a);
    assert forall v :: v in b <==> v in multiset(b);
    WeightsDiffer(s, t);
  }

  /** The public addresses that were found. */
  function AddrsFound(verdicts: seq<Option<Verdict>>): set<Addr> {
    set v | v in verdicts && v.Some? && v.value.publicAddr != EVERYBODY :: v.value.publicAddr
  }

  lemma {:induction false} LastAddrIsFound(verdicts: seq<Option<Verdict>>)
    ensures if AddrsFound(verdicts) == {} then LastAddr(verdicts) == EVERYBODY
            else LastAddr(verdicts) in AddrsFound(verdicts)
  {
    if verdicts != [] {
      var init, last := verdicts[..|verdicts| - 1], verdicts[|verdicts| - 1];
      LastAddrIsFound(init);
      assert AddrsFound(verdicts) == AddrsFound(init)
          + (if last.Some? && last.value.publicAddr != EVERYBODY then {last.value.publicAddr} else {});
    }
  }

  lemma SameVerdictsSameAddrs(a: seq<Option<Verdict>>, b: seq<Option<Verdict>>)
    requires multiset(a) == multiset(b)
    ensures AddrsFound(a) == AddrsFound(b)
  {
    assert forall v :: v in a <==> v in multiset(a);
    assert forall v :: v in b <==> v in multiset(b);
  }

  lemma MovedToEnd(a: seq<Option<Verdict>>, i: nat) returns (b: seq<Option<Verdict>>)
    requires i < |a|
    ensures multiset(b) == multiset(a) && b != [] && b[|b| - 1] == a[i]
  {
    b := a[..i] + a[i + 1..] + [a[i]];
    assert a == a[..i] + [a[i]] + a[i + 1..];
  }

  ghost predicate AddrIgnoresOrder(a: seq<Option<Verdict>>) {
    forall b :: multiset(b) == multiset(a) ==> LastAddr(b) == LastAddr(a)
  }

  /** No two servers saw different addresses. */
  predicate OneAddrFound(a: seq<Option<Verdict>>) { forall x <- AddrsFound(a), y <- AddrsFound(a) :: x == y }

  /** The public address is independent of the order exactly when no two servers saw different ones. */
  lemma AddrIgnoresOrderIff(a: seq<Option<Verdict>>)
    ensures AddrIgnoresOrder(a) <==> OneAddrFound(a)
  {
    LastAddrIsFound(a);
    if x :| x in AddrsFound(a) && x != LastAddr(a) {
      var i :| 0 <= i < |a| && a[i].Some? && a[i].value.publicAddr == x;
      var b := MovedToEnd(a, i);
      assert LastAddr(b) == x;
    } else {
      forall b | multiset(b) == multiset(a) ensures LastAddr(b) == LastAddr(a) {
        SameVerdictsSameAddrs(a, b);
        LastAddrIsFound(b);
      }
    }
  }
}
