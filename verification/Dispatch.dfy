/** The dispatcher: one received sequence, three destinations, two bounded channels. */
module Dispatch {
  import opened Types
  import Handshake

  datatype Class = Acks | Hub | General

  function ClassOf(m: Message): Class {
    match m.payload
    case Ack(_) => Acks
    case PeerIs(_) => Hub
    case NoRelayAvailable => Hub
    case _ => General
  }

  const HUB_CAPACITY := 32
  const GENERAL_CAPACITY := 256

  /** The messages of one class, in order. */
  function Only(ms: seq<Message>, c: Class): seq<Message> {
    if ms == [] then [] else
    var last := ms[|ms| - 1];
    Only(ms[..|ms| - 1], c) + (if ClassOf(last) == c then [last] else [])
  }

  /** Sending into a full channel waits: the dispatcher then holds the message and receives nothing. */
  datatype State = State(
    received: seq<Message>,
    resolved: seq<Message>,
    hub: seq<Message>,
    general: seq<Message>,
    held: Option<Message>,
    hubTaken: seq<Message>,
    generalTaken: seq<Message>)

  datatype Event = Receive(m: Message) | TakeHub | TakeGeneral

  const EMPTY := State([], [], [], [], None, [], [])

  /** Puts the held message into its channel if there is room now. */
  function Release(s: State): State {
    match s.held
    case None => s
    case Some(m) =>
      match ClassOf(m)
      case Acks => s.(resolved := s.resolved + [m], held := None)
      case Hub => if |s.hub| < HUB_CAPACITY then s.(hub := s.hub + [m], held := None) else s
      case General => if |s.general| < GENERAL_CAPACITY then s.(general := s.general + [m], held := None) else s
  }

  /** A blocked dispatcher does not receive; taking from an empty channel waits. */
  function Step(s: State, e: Event): State {
    match e
    case Receive(m) =>
      if s.held.Some? then s else Release(s.(received := s.received + [m], held := Some(m)))
    case TakeHub =>
      if s.hub == [] then s else Release(s.(hub := s.hub[1..], hubTaken := s.hubTaken + [s.hub[0]]))
    case TakeGeneral =>
      if s.general == [] then s
      else Release(s.(general := s.general[1..], generalTaken := s.generalTaken + [s.general[0]]))
  }

  function Run(s: State, es: seq<Event>): State {
    if es == [] then s else Step(Run(s, es[..|es| - 1]), es[|es| - 1])
  }

  function Held(s: State, c: Class): seq<Message> {
    if s.held.Some? && ClassOf(s.held.value) == c then [s.held.value] else []
  }

  /** Nothing is lost, doubled or reordered within a class, and the channels keep their bounds. */
  ghost predicate Split(s: State) {
    && Only(s.received, Acks) == s.resolved + Held(s, Acks)
    && Only(s.received, Hub) == s.hubTaken + s.hub + Held(s, Hub)
    && Only(s.received, General) == s.generalTaken + s.general + Held(s, General)
    && |s.hub| <= HUB_CAPACITY && |s.general| <= GENERAL_CAPACITY
  }

  /** Moreover, a message is held only in front of a full channel. */
  ghost predicate Inv(s: State) {
    && Split(s)
    && (s.held.Some? ==>
          || (ClassOf(s.held.value) == Hub && |s.hub| == HUB_CAPACITY)
          || (ClassOf(s.held.value) == General && |s.general| == GENERAL_CAPACITY))
  }

  lemma OnlySnoc(ms: seq<Message>, m: Message, c: Class)
    ensures Only(ms + [m], c) == Only(ms, c) + (if ClassOf(m) == c then [m] else [])
  {
    assert (ms + [m])[..|ms|] == ms;
  }

  lemma ReleaseRestoresInv(s: State)
    requires Split(s)
    ensures Inv(Release(s))
  {
    if s.held.Some? {
      var m := [s.held.value];
      assert s.resolved + m + [] == s.resolved + m;
      assert s.hubTaken + (s.hub + m) + [] == s.hubTaken + s.hub + m;
      assert s.generalTaken + (s.general + m) + [] == s.generalTaken + s.general + m;
    }
  }

  lemma Taken(taken: seq<Message>, queue: seq<Message>)
    requires queue != []
    ensures taken + [queue[0]] + queue[1..] == taken + queue
  {}

  lemma StepKeepsInv(s: State, e: Event)
    requires Inv(s)
    ensures Inv(Step(s, e))
  {
    match e
    case Receive(m) =>
      if s.held.None? {
        OnlySnoc(s.received, m, Acks);
        OnlySnoc(s.received, m, Hub);
        OnlySnoc(s.received, m, General);
        assert s.resolved + [] == s.resolved && s.hubTaken + s.hub + [] == s.hubTaken + s.hub;
        assert s.generalTaken + s.general + [] == s.generalTaken + s.general;
        ReleaseRestoresInv(s.(received := s.received + [m], held := Some(m)));
      }
    case TakeHub =>
      if s.hub != [] {
        Taken(s.hubTaken, s.hub);
        ReleaseRestoresInv(s.(hub := s.hub[1..], hubTaken := s.hubTaken + [s.hub[0]]));
      }
    case TakeGeneral =>
      if s.general != [] {
        Taken(s.generalTaken, s.general);
        ReleaseRestoresInv(s.(general := s.general[1..], generalTaken := s.generalTaken + [s.general[0]]));
      }
  }

  lemma {:induction false} DispatchIsFaithful(es: seq<Event>)
    ensures Inv(Run(EMPTY, es))
  {
    if es != [] {
      DispatchIsFaithful(es[..|es| - 1]);
      StepKeepsInv(Run(EMPTY, es[..|es| - 1]), es[|es| - 1]);
    }
  }

  // ---------- which payload goes where ----------

  predicate IsAck(m: Message) { m.payload.Ack? }

  predicate IsHubAnswer(m: Message) { m.payload.PeerIs? || m.payload.NoRelayAvailable? }

  predicate IsGeneral(m: Message) { !m.payload.Ack? && !IsHubAnswer(m) }

  /** The messages that satisfy p, in order. */
  function Filter(ms: seq<Message>, p: Message -> bool): seq<Message> {
    if ms == [] then [] else
    var last := ms[|ms| - 1];
    Filter(ms[..|ms| - 1], p) + (if p(last) then [last] else [])
  }

  lemma {:induction false} OnlyIsFilter(ms: seq<Message>)
    ensures Only(ms, Acks) == Filter(ms, IsAck)
    ensures Only(ms, Hub) == Filter(ms, IsHubAnswer)
    ensures Only(ms, General) == Filter(ms, IsGeneral)
  {
    if ms != [] {
      OnlyIsFilter(ms[..|ms| - 1]);
    }
  }

  /**
   * In every run: the Acks received are those resolved; the relay offers and refusals received are
   * those taken from the hub channel, those in it and, it may be, the one held in front of it; and
   * everything else received is in the same way in the general channel. All in order, nothing twice.
   */
  lemma PayloadsAreSplit(es: seq<Event>)
    ensures var s := Run(EMPTY, es);
            && Filter(s.received, IsAck) == s.resolved
            && Filter(s.received, IsHubAnswer)
               == s.hubTaken + s.hub + (if s.held.Some? && IsHubAnswer(s.held.value) then [s.held.value] else [])
            && Filter(s.received, IsGeneral)
               == s.generalTaken + s.general + (if s.held.Some? && IsGeneral(s.held.value) then [s.held.value] else [])
  {
    DispatchIsFaithful(es);
    OnlyIsFilter(Run(EMPTY, es).received);
    var s := Run(EMPTY, es);
    assert s.resolved + [] == s.resolved;
  }

  /** The dispatcher gives its resolver and its hub channel what the handshake takes them to get. */
  lemma SplitIsHandshake(cfg: Handshake.Config, self: Addr, n: Handshake.NodeState, now: U64, s: State, m: Message)
    requires self in cfg.names && Handshake.HasIds(n.next, 1)
    requires Inv(s) && s.held.None? && |s.hub| < HUB_CAPACITY && s.hub == n.answers
    ensures var after := Handshake.NodeReceive(cfg, self, n, now, m).0;
            var next := Step(s, Receive(m));
            && next.hub == after.answers
            && (after.signalled != n.signalled ==> next.resolved == s.resolved + [m])
  {
  }

  /** The dispatcher is blocked exactly when more than 32 hub answers or 256 other messages are undrained. */
  lemma BlockedIffOverCapacity(es: seq<Event>)
    ensures var s := Run(EMPTY, es);
            s.held.Some?
            <==> || |Filter(s.received, IsHubAnswer)| - |s.hubTaken| > 32
                 || |Filter(s.received, IsGeneral)| - |s.generalTaken| > 256
  {
    DispatchIsFaithful(es);
    OnlyIsFilter(Run(EMPTY, es).received);
  }

  /**
   * Nobody reads the hub channel once a node has found its relay: the 33rd answer of the hub that is
   * not drained is the last message the dispatcher ever receives.
   */
  lemma {:induction false} UndrainedHubStops(s: State, es: seq<Event>)
    requires Inv(s) && s.held.Some? && IsHubAnswer(s.held.value)
    requires TakeHub !in es
    ensures Run(s, es).received == s.received && Run(s, es).held == s.held && Run(s, es).hub == s.hub
  {
    if es != [] {
      assert forall e <- es[..|es| - 1] :: e in es;
      UndrainedHubStops(s, es[..|es| - 1]);
      assert es[|es| - 1] in es;
    }
  }

  class NodeDispatcher {
    var logs: seq<Message>
    var resolved: seq<Message>
    var hub: seq<Message>
    var general: seq<Message>
    var held: Option<Message>
    ghost var hubTaken: seq<Message>
    ghost var generalTaken: seq<Message>

    ghost function Now(): State
      reads this
    {
      State(logs, resolved, hub, general, held, hubTaken, generalTaken)
    }

    constructor ()
      ensures Now() == EMPTY
    {
      logs, resolved, hub, general, held := [], [], [], [], None;
      hubTaken, generalTaken := [], [];
    }

    method ReleaseHeld()
      modifies this
      ensures Now() == Release(old(Now()))
    {
      if held.Some? {
        var m := held.value;
        match ClassOf(m) {
          case Acks => resolved, held := resolved + [m], None;
          case Hub => if |hub| < HUB_CAPACITY { hub, held := hub + [m], None; }
          case General => if |general| < GENERAL_CAPACITY { general, held := general + [m], None; }
        }
      }
    }

    /** One turn of the loop: log, then route. */
    method OnMessage(m: Message)
      requires held.None?
      modifies this
      ensures Now() == Step(old(Now()), Receive(m))
      ensures logs == old(logs) + [m]
      ensures m.payload.Ack? ==> resolved == old(resolved) + [m] && hub == old(hub) && general == old(general)
      ensures IsHubAnswer(m) ==>
                && resolved == old(resolved) && general == old(general)
                && if |old(hub)| < 32 then hub == old(hub) + [m] && held == None else hub == old(hub) && held == Some(m)
      ensures IsGeneral(m) ==>
                && resolved == old(resolved) && hub == old(hub)
                && if |old(general)| < 256 then general == old(general) + [m] && held == None
                   else general == old(general) && held == Some(m)
    {
      logs := logs + [m];
      held := Some(m);
      ReleaseHeld();
    }

    method RecvHub() returns (m: Message)
      requires hub != []
      modifies this
      ensures m == old(hub)[0] && Now() == Step(old(Now()), TakeHub)
    {
      m := hub[0];
      hub, hubTaken := hub[1..], hubTaken + [m];
      ReleaseHeld();
    }

    method RecvGeneral() returns (m: Message)
      requires general != []
      modifies this
      ensures m == old(general)[0] && Now() == Step(old(Now()), TakeGeneral)
    {
      m := general[0];
      general, generalTaken := general[1..], generalTaken + [m];
      ReleaseHeld();
    }
  }
}
