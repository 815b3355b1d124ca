/** How a logged message becomes a row of the `logs` table and comes back. */
module Codec {
  import opened Types
  import opened InsertIgnore
  import opened Text

  datatype Row = Row(
    msgId: U64,
    time: U64,
    srcAddr: string,
    srcUsername: string,
    dstAddr: string,
    dstUsername: string,
    msgType: string,
    payload: Option<string>,
    lastHop: string,
    signature: string)

  function Joined(field: string, rest: string): string { field + ['|'] + rest }

  /** The last three of the six fields of a peer. */
  function PeerTail(info: PeerInfo): string {
    Joined(Decimal(info.lastSeen), Joined(ShowBool(info.isRelay), HexEncode(info.verifyingKey)))
  }

  function PeerFields(info: PeerInfo): string {
    Joined(HexEncode(Utf8(info.id)),
           Joined(ShowAddr(info.addr), Joined(info.username, PeerTail(info))))
  }

  function EncodePayload(p: Payload): (string, Option<string>) {
    match p
    case Classic(txt) => ("Classic", Some(txt))
    case Ack(replyTo) => ("Ack", Some(Decimal(replyTo)))
    case PeerIs(info) => ("PeerInfo", Some(PeerFields(info)))
    case RelayHasNewClient(addr, id) => ("RelayHasNewClient", Some(Joined(ShowAddr(addr), id)))
    case AskForAddr(username) => ("AskForAddr", Some(username))
    case Register(key) => ("Register", Some(HexEncode(key)))
    case Connect => ("Connect", None)
    case BeNewRelay(key) => ("BeNewRelay", Some(HexEncode(key)))
    case NeedRelay => ("NeedRelay", None)
    case NoRelayAvailable => ("NoRelayAvailable", None)
    case PunchTheHole => ("PunchTheHole", None)
  }

  function DecodePeer(s: string): Reading<Payload> {
    var parts := SplitN(s, '|', 6);
    if |parts| != 6 then Aborted else
    match (ParseAddr(parts[1]), ParseU64(parts[3]), ParseBool(parts[4]), KeyOfHex(parts[5]))
    case (Some(addr), Some(lastSeen), Some(isRelay), Some(key)) =>
      Loaded(PeerIs(PeerInfo(parts[0], addr, parts[2], lastSeen, isRelay, key)))
    case _ => Aborted
  }

  function DecodeNewClient(s: string): Reading<Payload> {
    var parts := SplitN(s, '|', 2);
    match ParseAddr(parts[0])
    case Some(addr) => Loaded(RelayHasNewClient(addr, if |parts| == 2 then parts[1] else ""))
    case None => Aborted
  }

  function DecodePayload(msgType: string, payload: Option<string>): Reading<Payload> {
    match payload
    case Some(s) =>
      if msgType == "Classic" then Loaded(Classic(s))
      else if msgType == "AskForAddr" then Loaded(AskForAddr(s))
      else if msgType == "Ack" then
        Loaded(Ack(match ParseU64(s) case Some(id) => id case None => 0))
      else if msgType == "PeerInfo" then DecodePeer(s)
      else if msgType == "RelayHasNewClient" then DecodeNewClient(s)
      else if msgType == "BeNewRelay" then
        (match KeyOfHex(s) case Some(key) => Loaded(BeNewRelay(key)) case None => Aborted)
      else if msgType == "Register" then
        (match KeyOfHex(s) case Some(key) => Loaded(Register(key)) case None => Aborted)
      else DecodeBare(msgType)
    case None => DecodeBare(msgType)
  }

  function DecodeBare(msgType: string): Reading<Payload> {
    if msgType == "Connect" then Loaded(Connect)
    else if msgType == "NeedRelay" then Loaded(NeedRelay)
    else if msgType == "NoRelayAvailable" then Loaded(NoRelayAvailable)
    else if msgType == "PunchTheHole" then Loaded(PunchTheHole)
    else Skipped
  }

  function EncodeMessage(m: Message): Row {
    var (msgType, payload) := EncodePayload(m.payload);
    Row(m.headers.msgId, m.headers.time,
        ShowAddr(m.headers.srcAddr), m.headers.srcUsername,
        ShowAddr(m.headers.dstAddr), m.headers.dstUsername,
        msgType, payload, ShowAddr(m.lastHop), HexEncode(m.headers.signature))
  }

  function DecodeRow(row: Row): Reading<Message> {
    match DecodePayload(row.msgType, row.payload)
    case Skipped => Skipped
    case Aborted => Aborted
    case Loaded(payload) =>
      match (ParseAddr(row.srcAddr), ParseAddr(row.dstAddr), ParseAddr(row.lastHop))
      case (Some(src), Some(dst), Some(lastHop)) =>
        var signature := match HexDecode(row.signature) case Some(bytes) => bytes case None => [];
        Loaded(Message(
          Headers(row.msgId, src, row.srcUsername, dst, row.dstUsername, row.time, signature),
          payload, lastHop))
      case _ => Aborted
  }

  // ---------- what comes back ----------

  /** The load survives every payload but one: a peer whose name holds the field separator. */
  predicate Reloadable(p: Payload) {
    p.PeerIs? ==> '|' !in p.info.username
  }

  /** The payload that comes back: the same, but a peer id is left in hexadecimal. */
  function Reloaded(p: Payload): Payload {
    if p.PeerIs? then PeerIs(p.info.(id := HexEncode(Utf8(p.info.id)))) else p
  }

  function ReloadedMessage(m: Message): Message { m.(payload := Reloaded(m.payload)) }

  lemma KeyRoundTrip(key: Key)
    ensures KeyOfHex(HexEncode(key)) == Some(key)
  {
    HexRoundTrip(key);
  }

  lemma SplitOffTwo(a: string, b: string, rest: string)
    requires '|' !in a && '|' !in b
    ensures SplitN(Joined(a, Joined(b, rest)), '|', 6) == [a, b] + SplitN(rest, '|', 4)
  {
    SplitOff(a, '|', Joined(b, rest), 6);
    SplitOff(b, '|', rest, 5);
  }

  lemma PeerHead(info: PeerInfo)
    ensures SplitN(PeerFields(info), '|', 6)
         == [HexEncode(Utf8(info.id)), ShowAddr(info.addr)]
            + SplitN(Joined(info.username, PeerTail(info)), '|', 4)
  {
    HexHasNoBar(Utf8(info.id));
    AddrHasNoBar(info.addr);
    SplitOffTwo(HexEncode(Utf8(info.id)), ShowAddr(info.addr), Joined(info.username, PeerTail(info)));
  }

  lemma PeerTailParts(info: PeerInfo)
    ensures SplitN(PeerTail(info), '|', 3)
         == [Decimal(info.lastSeen), ShowBool(info.isRelay), HexEncode(info.verifyingKey)]
  {
    var key := HexEncode(info.verifyingKey);
    DigitsHold(info.lastSeen, '|');
    SplitOff(Decimal(info.lastSeen), '|', Joined(ShowBool(info.isRelay), key), 3);
    SplitOff(ShowBool(info.isRelay), '|', key, 2);
  }

  lemma PeerRoundTrip(info: PeerInfo)
    requires '|' !in info.username
    ensures DecodePeer(PeerFields(info)) == Loaded(Reloaded(PeerIs(info)))
  {
    PeerHead(info);
    SplitOff(info.username, '|', PeerTail(info), 4);
    PeerTailParts(info);
    AddrRoundTrip(info.addr);
    U64RoundTrip(info.lastSeen);
    KeyRoundTrip(info.verifyingKey);
  }

  /** Cutting once leaves a bar behind when there were two. */
  lemma TwoBarsLeaveOne(a: string, rest: string)
    requires '|' in rest
    ensures var parts := SplitN(Joined(a, rest), '|', 2); |parts| == 2 && '|' in parts[1]
  {
    if '|' !in a {
      SplitOff(a, '|', rest, 2);
    } else {
      CutsInTwo(a, '|');
      var a0, a1 := Before(a, '|'), After(a, '|');
      assert Joined(a, rest) == Joined(a0, Joined(a1, rest));
      SplitOff(a0, '|', Joined(a1, rest), 2);
    }
  }

  /**
   * What is left of a name after its first bar pushes the fields out of place: either the decimal
   * `lastSeen` is read as a boolean, or the key is read together with a bar.
   */
  lemma SlidFields(left: string, info: PeerInfo)
    ensures var parts := SplitN(Joined(left, PeerTail(info)), '|', 3);
            |parts| == 3 && (ParseBool(parts[1]) == None || KeyOfHex(parts[2]) == None)
  {
    var tail := PeerTail(info);
    if '|' !in left {
      SplitOff(left, '|', tail, 3);
      DigitsHold(info.lastSeen, '|');
      SplitOff(Decimal(info.lastSeen), '|', Joined(ShowBool(info.isRelay), HexEncode(info.verifyingKey)), 2);
      DecimalIsDigits(info.lastSeen);
      assert IsDigit(Decimal(info.lastSeen)[0]);
    } else {
      CutsInTwo(left, '|');
      var l0, l1 := Before(left, '|'), After(left, '|');
      assert Joined(left, tail) == Joined(l0, Joined(l1, tail));
      SplitOff(l0, '|', Joined(l1, tail), 3);
      TwoBarsLeaveOne(l1, tail);
      BarIsNotHex(SplitN(Joined(l1, tail), '|', 2)[1]);
    }
  }

  lemma BarInName(name: string, info: PeerInfo)
    requires '|' in name
    ensures var parts := SplitN(Joined(name, PeerTail(info)), '|', 4);
            |parts| == 4 && (ParseBool(parts[2]) == None || KeyOfHex(parts[3]) == None)
  {
    CutsInTwo(name, '|');
    var n0, n1 := Before(name, '|'), After(name, '|');
    assert Joined(name, PeerTail(info)) == Joined(n0, Joined(n1, PeerTail(info)));
    SplitOff(n0, '|', Joined(n1, PeerTail(info)), 4);
    SlidFields(n1, info);
  }

  lemma BarInNameAborts(info: PeerInfo)
    requires '|' in info.username
    ensures DecodePeer(PeerFields(info)) == Aborted
  {
    PeerHead(info);
    BarInName(info.username, info);
  }

  lemma NewClientRoundTrip(addr: Addr, id: string)
    ensures DecodeNewClient(Joined(ShowAddr(addr), id)) == Loaded(RelayHasNewClient(addr, id))
  {
    AddrHasNoBar(addr);
    SplitOff(ShowAddr(addr), '|', id, 2);
    AddrRoundTrip(addr);
  }

  /** The texts that need parsing go to the arm of their own type. */
  lemma Arms(s: string)
    ensures DecodePayload("PeerInfo", Some(s)) == DecodePeer(s)
    ensures DecodePayload("RelayHasNewClient", Some(s)) == DecodeNewClient(s)
  {}

  lemma PlainRoundTrip(p: Payload)
    requires !p.PeerIs? && !p.RelayHasNewClient?
    ensures var (msgType, text) := EncodePayload(p);
            DecodePayload(msgType, text) == Loaded(p)
  {
    match p
    case Ack(replyTo) => U64RoundTrip(replyTo);
    case Register(key) => KeyRoundTrip(key);
    case BeNewRelay(key) => KeyRoundTrip(key);
    case _ =>
  }

  /** Every payload variant has its arm in the decoder, and exactly the reloadable ones come back. */
  lemma PayloadRoundTrip(p: Payload)
    ensures var (msgType, text) := EncodePayload(p);
            DecodePayload(msgType, text) == if Reloadable(p) then Loaded(Reloaded(p)) else Aborted
  {
    match p
    case RelayHasNewClient(addr, id) =>
      NewClientRoundTrip(addr, id);
      Arms(Joined(ShowAddr(addr), id));
    case PeerIs(info) =>
      Arms(PeerFields(info));
      if '|' in info.username { BarInNameAborts(info); } else { PeerRoundTrip(info); }
    case _ => PlainRoundTrip(p);
  }

  lemma MessageRoundTrip(m: Message)
    ensures DecodeRow(EncodeMessage(m))
         == if Reloadable(m.payload) then Loaded(ReloadedMessage(m)) else Aborted
  {
    PayloadRoundTrip(m.payload);
    AddrRoundTrip(m.headers.srcAddr);
    AddrRoundTrip(m.headers.dstAddr);
    AddrRoundTrip(m.lastHop);
    HexRoundTrip(m.headers.signature);
  }

  /** Rows that no refresh of this program writes: what the load makes of them. */
  lemma ForeignRows(msgType: string, text: Option<string>, s: string)
    ensures DecodePayload("Connect", text) == Loaded(Connect)
    ensures DecodePayload("NeedRelay", text) == Loaded(NeedRelay)
    ensures DecodePayload("NoRelayAvailable", text) == Loaded(NoRelayAvailable)
    ensures DecodePayload("PunchTheHole", text) == Loaded(PunchTheHole)
    ensures DecodePayload("Classic", Some(s)) == Loaded(Classic(s))
    ensures DecodePayload("AskForAddr", Some(s)) == Loaded(AskForAddr(s))
    ensures DecodePayload("Ack", Some(s)) == Loaded(Ack(if ParseU64(s).Some? then ParseU64(s).value else 0))
    ensures forall t <- ["Register", "BeNewRelay"] ::
              DecodePayload(t, Some(s)) == Aborted <==> KeyOfHex(s) == None
    ensures msgType !in ["Classic", "AskForAddr", "Ack", "PeerInfo", "RelayHasNewClient", "BeNewRelay", "Register",
                         "Connect", "NeedRelay", "NoRelayAvailable", "PunchTheHole"] ==>
              DecodePayload(msgType, text) == Skipped
    ensures msgType !in ["Connect", "NeedRelay", "NoRelayAvailable", "PunchTheHole"] ==>
              DecodePayload(msgType, None) == Skipped
  {}

  /** Rows of the two split types with too few bars. */
  lemma RowsWithTooFewBars(s: string, addr: Addr)
    ensures |SplitN(s, '|', 6)| < 6 ==> DecodePayload("PeerInfo", Some(s)) == Aborted
    ensures DecodePayload("RelayHasNewClient", Some(ShowAddr(addr))) == Loaded(RelayHasNewClient(addr, ""))
    ensures '|' !in s && (forall a: Addr :: ParseAddr(s) != Some(a)) ==>
              DecodePayload("RelayHasNewClient", Some(s)) == Aborted
  {
    Arms(s);
    Arms(ShowAddr(addr));
    AddrHasNoBar(addr);
    AddrRoundTrip(addr);
    if ParseAddr(s).Some? {
      assert ParseAddr(s) == Some(ParseAddr(s).value);
    }
  }

  /** Which column of a row gives which part of the message. */
  lemma ColumnsMeaning(row: Row)
    requires DecodeRow(row).Loaded?
    ensures var m := DecodeRow(row).value;
            && m.headers.msgId == row.msgId && m.headers.time == row.time
            && m.headers.srcUsername == row.srcUsername && m.headers.dstUsername == row.dstUsername
            && ParseAddr(row.srcAddr) == Some(m.headers.srcAddr)
            && ParseAddr(row.dstAddr) == Some(m.headers.dstAddr)
            && ParseAddr(row.lastHop) == Some(m.lastHop)
            && (HexDecode(row.signature) == None ==> m.headers.signature == [])
  {}

  /** Different ids are still told apart after a reload. */
  lemma ReloadedIsInjective(p: Payload, q: Payload)
    requires p.PeerIs? && q.PeerIs? && Reloaded(p) == Reloaded(q)
    ensures p == q
  {
    HexRoundTrip(Utf8(p.info.id));
    HexRoundTrip(Utf8(q.info.id));
    Utf8IsInjective(p.info.id, q.info.id);
    assert p.info == p.info.(id := "").(id := p.info.id) && q.info == q.info.(id := "").(id := q.info.id);
    assert Reloaded(p).info.(id := "") == p.info.(id := "") && Reloaded(q).info.(id := "") == q.info.(id := "");
  }

  /** The id that comes back is the original only when there was none. */
  lemma ReloadedIdDiffers(p: Payload)
    requires p.PeerIs?
    ensures Reloaded(p) == p <==> p.info.id == ""
  {
    Utf8Grows(p.info.id);
    HexHasNoBar(Utf8(p.info.id));
  }
}
