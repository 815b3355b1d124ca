/** Message ids: a counter in memory that a restart sets from the log that reached the database. */
module MsgIds {
  import opened Types
  import opened InsertIgnore
  import opened Codec
  import opened LogTable
  import opened Text
  import HubLog

  /** COALESCE(MAX(msg_id), 0) over the rows of one source address. */
  function MaxMsgId(rows: seq<Row>, srcAddr: string): U64 {
    if rows == [] then 0 else
    var last := rows[|rows| - 1];
    var before := MaxMsgId(rows[..|rows| - 1], srcAddr);
    if last.srcAddr == srcAddr && last.msgId > before then last.msgId else before
  }

  lemma {:induction false} MaxIsMaximum(rows: seq<Row>, srcAddr: string)
    ensures forall k :: 0 <= k < |rows| && rows[k].srcAddr == srcAddr ==> rows[k].msgId <= MaxMsgId(rows, srcAddr)
    ensures MaxMsgId(rows, srcAddr) > 0 ==>
              exists k :: 0 <= k < |rows| && rows[k].srcAddr == srcAddr && rows[k].msgId == MaxMsgId(rows, srcAddr)
  {
    if rows != [] {
      var init, last := rows[..|rows| - 1], rows[|rows| - 1];
      MaxIsMaximum(init, srcAddr);
      if MaxMsgId(rows, srcAddr) > 0 && MaxMsgId(rows, srcAddr) == MaxMsgId(init, srcAddr) {
        var k :| 0 <= k < |init| && init[k].srcAddr == srcAddr && init[k].msgId == MaxMsgId(init, srcAddr);
        assert rows[k] == init[k];
      }
    }
  }

  class MsgCounter {
    var next: U64

    constructor ()
      ensures next == 1
    {
      next := 1;
    }

    /** fetch_add wraps around. */
    method NewMsgId() returns (id: U64)
      modifies this
      ensures id == old(next) && next == (old(next) + 1) % U64_SIZE
      ensures forall n: Node, m: Message, leaves: bool :: n.next == old(next) && Allowed(n, Send(m, leaves)) ==>
                Step(n, Send(m, leaves)).next == next && Step(n, Send(m, leaves)).given == n.given + [(id, n.addr)]
    {
      id := next;
      next := (next + 1) % U64_SIZE;
    }

    /** `maxId` is the answer of the maximum query, None when the query failed. */
    method InitMsgId(maxId: Option<U64>) returns (init: U64)
      modifies this
      ensures next == init == FirstId(maxId)
      ensures forall n: Node, addr: Addr, flushes: bool ::
                Allowed(n, Restart(addr, flushes, maxId.Some?))
                && (maxId.Some? ==> maxId.value == MaxMsgId(RowsAtStop(n, flushes), ShowAddr(addr))) ==>
                  Step(n, Restart(addr, flushes, maxId.Some?)).next == next
    {
      var max := match maxId case Some(id) => id case None => 0;
      init := if max == 0 then 1 else (max + 1) % U64_SIZE;
      next := init;
    }
  }

  /** The first id of a session. */
  function FirstId(maxId: Option<U64>): U64 {
    match maxId case Some(id) => (id + 1) % U64_SIZE case None => 1
  }

  // ---------- the lives of a node ----------

  /** A node, with the (id, own address) pairs it ever gave to a message, and those that left on the wire. */
  datatype Node = Node(
    addr: Addr,
    next: U64,
    logs: seq<Message>,
    rows: seq<Row>,
    given: seq<(U64, Addr)>,
    sent: seq<(U64, Addr)>)

  datatype Event =
    | Send(m: Message, leaves: bool)       // a message gets an id; the socket may refuse to send it
    | Receive(m: Message)
    | Trim                                 // on the hub only
    | Refresh
    | Restart(addr: Addr, flushes: bool, queryAnswers: bool)  // stop, start on this address, load

  function Stamped(m: Message, id: U64, addr: Addr): Message {
    m.(headers := m.headers.(msgId := id, srcAddr := addr))
  }

  function Trimmed(logs: seq<Message>): seq<Message> {
    if |logs| > HubLog.TRIM_ABOVE then logs[HubLog.TRIM_COUNT..] else logs
  }

  /** What the table holds at a stop, which may come with a last refresh or without warning. */
  function RowsAtStop(n: Node, flushes: bool): seq<Row> {
    if flushes then Refreshed(LOGS, n.rows, n.logs) else n.rows
  }

  /** A session does not use up the 64-bit counter, and a start can read the table back. */
  ghost predicate Allowed(n: Node, e: Event) {
    match e
    case Send(_, _) => n.next + 1 < U64_SIZE
    case Restart(_, flushes, _) => LoadAll(DecodeRow, RowsAtStop(n, flushes)).Some?
    case _ => true
  }

  ghost function Step(n: Node, e: Event): Node
    requires Allowed(n, e)
  {
    match e
    case Send(m, leaves) =>
      var pair := (n.next, n.addr);
      n.(next := n.next + 1,
         logs := if leaves then n.logs + [Stamped(m, n.next, n.addr)] else n.logs,
         given := n.given + [pair],
         sent := if leaves then n.sent + [pair] else n.sent)
    case Receive(m) => n.(logs := n.logs + [m])
    case Trim => n.(logs := Trimmed(n.logs))
    case Refresh => n.(rows := Refreshed(LOGS, n.rows, n.logs))
    case Restart(addr, flushes, queryAnswers) =>
      var rows := RowsAtStop(n, flushes);
      var maxId := if queryAnswers then Some(MaxMsgId(rows, ShowAddr(addr))) else None;
      n.(addr := addr, next := FirstId(maxId), rows := rows, logs := LoadAll(DecodeRow, rows).value)
  }

  ghost predicate StepAt(tr: seq<Node>, es: seq<Event>, i: nat) {
    i < |es| && i + 1 < |tr| && Allowed(tr[i], es[i]) && tr[i + 1] == Step(tr[i], es[i])
  }

  /** The state before each event and after the last. */
  ghost predicate Life(tr: seq<Node>, es: seq<Event>) {
    |tr| == |es| + 1 && forall i: nat :: i < |es| ==> StepAt(tr, es, i)
  }

  /** A start whose query answers, on a table that earlier sessions wrote. */
  ghost predicate Started(n: Node) {
    && AllWritten(LOGS, n.rows) && LoadAll(DecodeRow, n.rows) == Some(n.logs)
    && n.next == FirstId(Some(MaxMsgId(n.rows, ShowAddr(n.addr)))) && n.given == [] && n.sent == []
  }

  predicate Distinct(pairs: seq<(U64, Addr)>) {
    forall i, j :: 0 <= i < j < |pairs| ==> pairs[i] != pairs[j]
  }

  ghost predicate Logged(logs: seq<Message>, id: U64, addr: Addr) {
    exists i :: 0 <= i < |logs| && logs[i].headers.msgId == id && logs[i].headers.srcAddr == addr
  }

  ghost predicate Stored(rows: seq<Row>, id: U64, addr: Addr) {
    exists k :: 0 <= k < |rows| && rows[k].msgId == id && rows[k].srcAddr == ShowAddr(addr)
  }

  /** Ids in the table fit an INTEGER column, so the one after them does not wrap around. */
  lemma StoredIdsFit(rows: seq<Row>, srcAddr: string)
    requires AllWritten(LOGS, rows)
    ensures MaxMsgId(rows, srcAddr) < INTEGER_LIMIT
  {
    MaxIsMaximum(rows, srcAddr);
    if MaxMsgId(rows, srcAddr) > 0 {
      var k :| 0 <= k < |rows| && rows[k].srcAddr == srcAddr && rows[k].msgId == MaxMsgId(rows, srcAddr);
      var m :| LOGS.accepts(m) && LOGS.encode(m) == rows[k];
      EncodingKeepsKey(m);
      assert LOGS.key(rows[k]).msgId == m.headers.msgId;
    }
  }

  lemma StoredStays(rows: seq<Row>, logs: seq<Message>, id: U64, addr: Addr)
    requires Stored(rows, id, addr)
    ensures Stored(Refreshed(LOGS, rows, logs), id, addr)
  {
    InsertAllKeeps(LOGS, rows, Encoded(LOGS, logs));
    var k :| 0 <= k < |rows| && rows[k].msgId == id && rows[k].srcAddr == ShowAddr(addr);
    assert Refreshed(LOGS, rows, logs)[k] == rows[k];
  }

  lemma FlushStores(rows: seq<Row>, logs: seq<Message>, id: U64, addr: Addr)
    requires AcceptsAll(LOGS, logs) && Logged(logs, id, addr)
    ensures Stored(Refreshed(LOGS, rows, logs), id, addr)
  {
    var i :| 0 <= i < |logs| && logs[i].headers.msgId == id && logs[i].headers.srcAddr == addr;
    RefreshKeepsRecords(LOGS, rows, logs, logs[i]);
    EncodingKeepsKey(logs[i]);
    var after := Refreshed(LOGS, rows, logs);
    var k :| 0 <= k < |after| && LOGS.key(after[k]) == MessageKey(logs[i]);
    assert after[k].msgId == id;
  }

  lemma BelowFirstId(rows: seq<Row>, srcAddr: string, k: nat)
    requires MaxMsgId(rows, srcAddr) < INTEGER_LIMIT && k < |rows| && rows[k].srcAddr == srcAddr
    ensures rows[k].msgId < FirstId(Some(MaxMsgId(rows, srcAddr)))
  {
    MaxIsMaximum(rows, srcAddr);
  }

  /** A start whose query answers gives ids above everything stored for the address. */
  lemma StartExceedsStored(rows: seq<Row>, addr: Addr, id: U64)
    requires AllWritten(LOGS, rows) && Stored(rows, id, addr)
    ensures id < FirstId(Some(MaxMsgId(rows, ShowAddr(addr))))
  {
    var k :| 0 <= k < |rows| && rows[k].msgId == id && rows[k].srcAddr == ShowAddr(addr);
    StoredIdsFit(rows, ShowAddr(addr));
    BelowFirstId(rows, ShowAddr(addr), k);
  }

  /** A start whose query fails does so only when nothing above 0 is stored for the address. */
  lemma FailedQueryIsFreshIff(rows: seq<Row>, addr: Addr)
    ensures (forall id: U64 :: Stored(rows, id, addr) ==> id < FirstId(None)) <==> MaxMsgId(rows, ShowAddr(addr)) == 0
  {
    var max := MaxMsgId(rows, ShowAddr(addr));
    MaxIsMaximum(rows, ShowAddr(addr));
    if max > 0 {
      assert Stored(rows, max, addr);
    }
  }

  // ---------- new ids against what is logged and stored ----------

  /** The id is logged or stored for the present address. */
  ghost predicate Known(n: Node, id: U64) { Logged(n.logs, id, n.addr) || Stored(n.rows, id, n.addr) }

  /** The next id is above all of these. */
  ghost predicate Above(n: Node) { forall id: U64 :: Known(n, id) ==> id < n.next }

  /**
   * Nobody else uses an id of this node's address that it has not given out yet; and if the query
   * fails at a start, nothing above 0 is stored for the address.
   */
  ghost predicate Calm(n: Node, e: Event) {
    match e
    case Receive(m) => m.headers.srcAddr == n.addr ==> m.headers.msgId < n.next
    case Restart(addr, flushes, queryAnswers) =>
      queryAnswers || MaxMsgId(RowsAtStop(n, flushes), ShowAddr(addr)) == 0
    case _ => true
  }

  /** A refresh stores nothing that was neither stored nor logged. */
  lemma RefreshedStored(rows: seq<Row>, logs: seq<Message>, id: U64, addr: Addr)
    requires Stored(Refreshed(LOGS, rows, logs), id, addr)
    ensures Stored(rows, id, addr) || Logged(logs, id, addr)
  {
    if AcceptsAll(LOGS, logs) {
      var after, more := Refreshed(LOGS, rows, logs), Encoded(LOGS, logs);
      var k :| 0 <= k < |after| && after[k].msgId == id && after[k].srcAddr == ShowAddr(addr);
      InsertAllKeys(LOGS, rows, more, KeyOf(after[k]));
      assert HasKey(LOGS, after, KeyOf(after[k]));
      if HasKey(LOGS, rows, KeyOf(after[k])) {
        var j :| 0 <= j < |rows| && LOGS.key(rows[j]) == KeyOf(after[k]);
        assert rows[j].msgId == id && rows[j].srcAddr == ShowAddr(addr);
      } else {
        var j :| 0 <= j < |more| && LOGS.key(more[j]) == KeyOf(after[k]);
        EncodingKeepsKey(logs[j]);
        ShowAddrInjective(logs[j].headers.srcAddr, addr);
      }
    }
  }

  lemma LoadKeepsKeys(rows: seq<Row>)
    requires AllWritten(LOGS, rows) && LoadAll(DecodeRow, rows).Some?
    ensures var logs := LoadAll(DecodeRow, rows).value;
            && |logs| == |rows|
            && forall i :: 0 <= i < |rows| ==> LOGS.key(LOGS.encode(logs[i])) == KeyOf(rows[i])
  {
    RowsReadBack();
    BackKeepsKeys();
    LoadedKeys(LOGS, DecodeRow, Back, rows);
  }

  /** What a start loads is stored. */
  lemma LoadedIsStored(rows: seq<Row>, id: U64, addr: Addr)
    requires AllWritten(LOGS, rows) && LoadAll(DecodeRow, rows).Some?
    requires Logged(LoadAll(DecodeRow, rows).value, id, addr)
    ensures Stored(rows, id, addr)
  {
    LoadKeepsKeys(rows);
    var logs := LoadAll(DecodeRow, rows).value;
    var i :| 0 <= i < |logs| && logs[i].headers.msgId == id && logs[i].headers.srcAddr == addr;
    EncodingKeepsKey(logs[i]);
    assert rows[i].msgId == id && rows[i].srcAddr == ShowAddr(addr);
  }

  lemma StartIsAbove(n: Node)
    requires Started(n)
    ensures Above(n)
  {
    forall id: U64 | Known(n, id) ensures id < n.next {
      if Logged(n.logs, id, n.addr) {
        LoadedIsStored(n.rows, id, n.addr);
      }
      StartExceedsStored(n.rows, n.addr, id);
    }
  }

  lemma LogSnoc(logs: seq<Message>, m: Message, id: U64, addr: Addr)
    ensures Logged(logs + [m], id, addr) <==> Logged(logs, id, addr) || (m.headers.msgId == id && m.headers.srcAddr == addr)
  {
    if i :| 0 <= i < |logs| && logs[i].headers.msgId == id && logs[i].headers.srcAddr == addr {
      assert (logs + [m])[i] == logs[i];
    }
    assert (logs + [m])[|logs|] == m;
  }

  lemma TrimLogs(logs: seq<Message>, id: U64, addr: Addr)
    requires Logged(Trimmed(logs), id, addr)
    ensures Logged(logs, id, addr)
  {
    var kept := Trimmed(logs);
    var i :| 0 <= i < |kept| && kept[i].headers.msgId == id && kept[i].headers.srcAddr == addr;
    assert kept[i] == logs[|logs| - |kept| + i];
  }

  lemma LoadKnowsStored(n: Node)
    requires AllWritten(LOGS, n.rows) && LoadAll(DecodeRow, n.rows) == Some(n.logs)
    ensures Above(n) <==> forall id: U64 :: Stored(n.rows, id, n.addr) ==> id < n.next
  {
    forall id: U64 ensures Known(n, id) <==> Stored(n.rows, id, n.addr) {
      if Logged(n.logs, id, n.addr) {
        LoadedIsStored(n.rows, id, n.addr);
      }
    }
  }

  lemma RestartIsAboveIff(n: Node, addr: Addr, flushes: bool, queryAnswers: bool)
    requires AllWritten(LOGS, n.rows) && Allowed(n, Restart(addr, flushes, queryAnswers))
    ensures Above(Step(n, Restart(addr, flushes, queryAnswers))) <==> Calm(n, Restart(addr, flushes, queryAnswers))
  {
    var next := Step(n, Restart(addr, flushes, queryAnswers));
    RefreshedRows(LOGS, n.rows, n.logs);
    LoadKnowsStored(next);
    if queryAnswers {
      forall id: U64 | Stored(next.rows, id, addr) ensures id < next.next {
        StartExceedsStored(next.rows, addr, id);
      }
    } else {
      FailedQueryIsFreshIff(next.rows, addr);
    }
  }

  lemma ReceiveIsAboveIff(n: Node, m: Message)
    requires Above(n)
    ensures Above(Step(n, Receive(m))) <==> Calm(n, Receive(m))
  {
    var next := Step(n, Receive(m));
    forall id: U64
      ensures Known(next, id) <==> Known(n, id) || (m.headers.msgId == id && m.headers.srcAddr == n.addr)
    {
      LogSnoc(n.logs, m, id, n.addr);
    }
    if m.headers.srcAddr == n.addr {
      assert Known(next, m.headers.msgId);
    }
  }

  /** These events make no other id known than the one given out. */
  lemma OtherKnown(n: Node, e: Event, id: U64)
    requires (e.Send? || e.Trim? || e.Refresh?) && Allowed(n, e) && Known(Step(n, e), id)
    ensures Known(n, id) || (e.Send? && id == n.next)
  {
    match e
    case Send(m, leaves) => LogSnoc(n.logs, Stamped(m, n.next, n.addr), id, n.addr);
    case Trim =>
      if Logged(Trimmed(n.logs), id, n.addr) {
        TrimLogs(n.logs, id, n.addr);
      }
    case Refresh =>
      if Stored(Step(n, e).rows, id, n.addr) {
        RefreshedStored(n.rows, n.logs, id, n.addr);
      }
  }

  /** A step keeps new ids above all logged and stored ones exactly when it is a calm one. */
  lemma StepIsAboveIff(n: Node, e: Event)
    requires Above(n) && AllWritten(LOGS, n.rows) && Allowed(n, e)
    ensures Above(Step(n, e)) <==> Calm(n, e)
  {
    match e
    case Restart(addr, flushes, queryAnswers) => RestartIsAboveIff(n, addr, flushes, queryAnswers);
    case Receive(m) => ReceiveIsAboveIff(n, m);
    case _ =>
      forall id: U64 | Known(Step(n, e), id) ensures id < Step(n, e).next {
        OtherKnown(n, e, id);
      }
  }

  lemma AboveAtIff(tr: seq<Node>, es: seq<Event>, i: nat)
    requires Life(tr, es) && i < |es| && Above(tr[i]) && AllWritten(LOGS, tr[i].rows)
    ensures Above(tr[i + 1]) <==> Calm(tr[i], es[i])
  {
    assert StepAt(tr, es, i);
    StepIsAboveIff(tr[i], es[i]);
  }

  lemma StepWrites(n: Node, e: Event)
    requires Allowed(n, e) && AllWritten(LOGS, n.rows)
    ensures AllWritten(LOGS, Step(n, e).rows)
  {
    RefreshedRows(LOGS, n.rows, n.logs);
  }

  lemma WritesAt(tr: seq<Node>, es: seq<Event>, i: nat)
    requires Life(tr, es) && i < |es| && AllWritten(LOGS, tr[i].rows)
    ensures AllWritten(LOGS, tr[i + 1].rows)
  {
    assert StepAt(tr, es, i);
    StepWrites(tr[i], es[i]);
  }

  lemma {:induction false} LifeWrites(tr: seq<Node>, es: seq<Event>, i: nat)
    requires Life(tr, es) && i < |tr| && AllWritten(LOGS, tr[0].rows)
    ensures AllWritten(LOGS, tr[i].rows)
  {
    if i > 0 {
      LifeWrites(tr, es, i - 1);
      WritesAt(tr, es, i - 1);
    }
  }

  lemma {:induction false} HoldsWhileSteps(holds: int -> bool, steps: int -> bool, n: nat)
    requires holds(0) && forall j :: 0 <= j < n && holds(j) ==> (holds(j + 1) <==> steps(j))
    ensures (forall j :: 0 <= j <= n ==> holds(j)) <==> (forall j :: 0 <= j < n ==> steps(j))
  {
    if n > 0 {
      HoldsWhileSteps(holds, steps, n - 1);
      var last := n - 1;
      assert holds(last) ==> (holds(last + 1) <==> steps(last));
    }
  }

  /**
   * Over a whole life, with restarts and changes of address: the next id is at all times above every
   * id logged or stored for the present address, if and only if every event is a calm one.
   */
  lemma NewIdsAreAboveIff(tr: seq<Node>, es: seq<Event>)
    requires Life(tr, es) && Above(tr[0]) && AllWritten(LOGS, tr[0].rows)
    ensures (forall j :: 0 <= j <= |es| ==> Above(tr[j])) <==> (forall j :: 0 <= j < |es| ==> Calm(tr[j], es[j]))
  {
    var holds := j => 0 <= j < |tr| && Above(tr[j]);
    var steps := j => 0 <= j < |es| && Calm(tr[j], es[j]);
    forall j | 0 <= j < |es| && holds(j) ensures holds(j + 1) <==> steps(j) {
      LifeWrites(tr, es, j);
      AboveAtIff(tr, es, j);
    }
    HoldsWhileSteps(holds, steps, |es|);
    assert forall j :: 0 <= j <= |es| ==> (holds(j) <==> Above(tr[j]));
    assert forall j :: 0 <= j < |es| ==> (steps(j) <==> Calm(tr[j], es[j]));
  }

  /**
   * What becomes of a life that is not calm: a stranger's message under this node's address and next
   * id is stored, and the node's own message under that id is not.
   */
  lemma StrangerHidesOwnMessage(addr: Addr, theirs: Message, own: Message)
    requires theirs.headers.srcAddr == addr && theirs.headers.msgId == 1
    requires own.headers.srcUsername == theirs.headers.srcUsername
    requires LOGS.accepts(theirs) && own.headers.time < INTEGER_LIMIT
    ensures var start := Node(addr, 1, [], [], [], []);
            var sent := Step(Step(start, Receive(theirs)), Send(own, true));
            && Started(start) && sent.logs == [theirs, Stamped(own, 1, addr)]
            && Step(sent, Refresh).rows == [EncodeMessage(theirs)]
  {
    EncodingKeepsKey(theirs);
    EncodingKeepsKey(Stamped(own, 1, addr));
    TwoOfOneKey(theirs, Stamped(own, 1, addr));
  }

  lemma TwoOfOneKey(a: Message, b: Message)
    requires LOGS.accepts(a) && LOGS.accepts(b) && LOGS.key(LOGS.encode(a)) == LOGS.key(LOGS.encode(b))
    ensures Refreshed(LOGS, [], [a, b]) == [EncodeMessage(a)]
  {
    var more := Encoded(LOGS, [a, b]);
    assert more[..1] == [LOGS.encode(a)] && more[..1][..0] == [];
    assert InsertAll(LOGS, [], more[..1]) == [LOGS.encode(a)];
    assert LOGS.key([LOGS.encode(a)][0]) == LOGS.key(more[1]);
  }

  // ---------- ids given out ----------

  /** Every id ever given out under the present address is below the next one. */
  ghost predicate GivenBelow(n: Node) {
    forall k :: 0 <= k < |n.given| && n.given[k].1 == n.addr ==> n.given[k].0 < n.next
  }

  /** From the largest stored id on, up to any id given out and up to the next one, all were given out. */
  ghost predicate Gapless(n: Node) {
    && n.next > 0
    && (forall id: U64 :: MaxMsgId(n.rows, ShowAddr(n.addr)) < id < n.next ==> (id, n.addr) in n.given)
    && (forall k, id: U64 ::
          0 <= k < |n.given| && MaxMsgId(n.rows, ShowAddr(n.given[k].1)) < id <= n.given[k].0 ==>
            (id, n.given[k].1) in n.given)
  }

  lemma MaxGrows(rows: seq<Row>, logs: seq<Message>, srcAddr: string)
    ensures MaxMsgId(rows, srcAddr) <= MaxMsgId(Refreshed(LOGS, rows, logs), srcAddr)
  {
    InsertAllKeeps(LOGS, rows, Encoded(LOGS, logs));
    var after := Refreshed(LOGS, rows, logs);
    MaxIsMaximum(rows, srcAddr);
    MaxIsMaximum(after, srcAddr);
    if MaxMsgId(rows, srcAddr) > 0 {
      var k :| 0 <= k < |rows| && rows[k].srcAddr == srcAddr && rows[k].msgId == MaxMsgId(rows, srcAddr);
      assert after[k] == rows[k];
    }
  }

  lemma GapsClose(n: Node)
    requires Gapless(n)
    ensures forall k, id: U64 ::
              0 <= k < |n.given| && id <= n.given[k].0
              && MaxMsgId(Refreshed(LOGS, n.rows, n.logs), ShowAddr(n.given[k].1)) < id ==>
                (id, n.given[k].1) in n.given
    ensures forall id: U64 ::
              MaxMsgId(Refreshed(LOGS, n.rows, n.logs), ShowAddr(n.addr)) < id < n.next ==> (id, n.addr) in n.given
  {
    forall a: string ensures MaxMsgId(n.rows, a) <= MaxMsgId(Refreshed(LOGS, n.rows, n.logs), a) {
      MaxGrows(n.rows, n.logs, a);
    }
  }

  lemma RestartKeepsGapless(n: Node, addr: Addr, flushes: bool, queryAnswers: bool)
    requires Gapless(n) && Allowed(n, Restart(addr, flushes, queryAnswers)) && AllWritten(LOGS, n.rows)
    ensures Gapless(Step(n, Restart(addr, flushes, queryAnswers)))
  {
    GapsClose(n);
    StepWrites(n, Restart(addr, flushes, queryAnswers));
    FirstAfterMax(RowsAtStop(n, flushes), addr);
  }

  lemma SendKeepsGapless(n: Node, m: Message, leaves: bool)
    requires Gapless(n) && Allowed(n, Send(m, leaves))
    ensures Gapless(Step(n, Send(m, leaves)))
  {
    var after := Step(n, Send(m, leaves));
    assert (n.next, n.addr) == after.given[|n.given|];
    assert forall pair :: pair in n.given ==> pair in after.given;
  }

  lemma StepKeepsGapless(n: Node, e: Event)
    requires Gapless(n) && Allowed(n, e) && AllWritten(LOGS, n.rows)
    ensures Gapless(Step(n, e))
  {
    match e
    case Send(m, leaves) => SendKeepsGapless(n, m, leaves);
    case Restart(addr, flushes, queryAnswers) => RestartKeepsGapless(n, addr, flushes, queryAnswers);
    case Refresh => GapsClose(n);
    case _ =>
  }

  lemma NoWrap(id: U64)
    requires id < INTEGER_LIMIT
    ensures FirstId(Some(id)) == id + 1
  {}

  lemma FirstAfterMax(rows: seq<Row>, addr: Addr)
    requires AllWritten(LOGS, rows)
    ensures FirstId(Some(MaxMsgId(rows, ShowAddr(addr)))) == MaxMsgId(rows, ShowAddr(addr)) + 1
  {
    StoredIdsFit(rows, ShowAddr(addr));
    NoWrap(MaxMsgId(rows, ShowAddr(addr)));
  }

  lemma StartIsGapless(n: Node)
    requires Started(n)
    ensures Gapless(n)
  {
    FirstAfterMax(n.rows, n.addr);
  }

  /** A message gets an id that was given out before exactly when some id given out is not below it. */
  lemma NextIsNewIff(n: Node)
    requires Gapless(n) && Above(n)
    ensures GivenBelow(n) <==> (n.next, n.addr) !in n.given
  {
    var max := MaxMsgId(n.rows, ShowAddr(n.addr));
    MaxIsMaximum(n.rows, ShowAddr(n.addr));
    if max > 0 {
      assert Stored(n.rows, max, n.addr) && Known(n, max);
    }
    if k :| 0 <= k < |n.given| && n.given[k].1 == n.addr && n.given[k].0 >= n.next {
      assert (n.next, n.given[k].1) in n.given;
    }
  }

  lemma DistinctSnoc(pairs: seq<(U64, Addr)>, pair: (U64, Addr))
    ensures Distinct(pairs + [pair]) <==> Distinct(pairs) && pair !in pairs
  {
    var all := pairs + [pair];
    if Distinct(all) {
      forall i, j | 0 <= i < j < |pairs| ensures pairs[i] != pairs[j] {
        assert all[i] != all[j];
      }
      forall i | 0 <= i < |pairs| ensures pairs[i] != pair {
        assert all[i] != all[|pairs|];
      }
    }
  }

  lemma GivenAt(tr: seq<Node>, es: seq<Event>, i: nat)
    requires Life(tr, es) && i < |es| && Gapless(tr[i]) && Above(tr[i]) && AllWritten(LOGS, tr[i].rows)
    ensures Gapless(tr[i + 1])
    ensures Distinct(tr[i + 1].given) <==> Distinct(tr[i].given) && (es[i].Send? ==> GivenBelow(tr[i]))
  {
    assert StepAt(tr, es, i);
    StepKeepsGapless(tr[i], es[i]);
    NextIsNewIff(tr[i]);
    DistinctSnoc(tr[i].given, (tr[i].next, tr[i].addr));
  }

  lemma CalmIsAbove(tr: seq<Node>, es: seq<Event>, i: nat)
    requires Life(tr, es) && i < |tr| && Started(tr[0]) && forall j :: 0 <= j < |es| ==> Calm(tr[j], es[j])
    ensures AllWritten(LOGS, tr[i].rows) && Above(tr[i])
  {
    LifeWrites(tr, es, i);
    StartIsAbove(tr[0]);
    NewIdsAreAboveIff(tr, es);
  }

  lemma {:induction false} AlwaysGapless(tr: seq<Node>, es: seq<Event>, i: nat)
    requires Life(tr, es) && i < |tr| && Started(tr[0]) && forall j :: 0 <= j < |es| ==> Calm(tr[j], es[j])
    ensures Gapless(tr[i])
  {
    if i == 0 {
      StartIsGapless(tr[0]);
    } else {
      AlwaysGapless(tr, es, i - 1);
      CalmIsAbove(tr, es, i - 1);
      GivenAt(tr, es, i - 1);
    }
  }

  lemma {:induction false} HoldsIfAllSteps(holds: int -> bool, steps: int -> bool, n: nat)
    requires holds(0) && forall j :: 0 <= j < n ==> (holds(j + 1) <==> holds(j) && steps(j))
    ensures holds(n) <==> forall j :: 0 <= j < n ==> steps(j)
  {
    if n > 0 {
      var last := n - 1;
      HoldsIfAllSteps(holds, steps, last);
      assert holds(last + 1) <==> holds(last) && steps(last);
    }
  }

  /**
   * All ids a node gives out, counting those of messages that never left, and those that were trimmed
   * or lost in a stop before they were stored: over a calm life no pair (id, own address) is given out twice, if and only if every
   * message finds the ids given out before, under the address it has then, below its own.
   */
  lemma GivenIdsAreDistinctIff(tr: seq<Node>, es: seq<Event>)
    requires Life(tr, es) && Started(tr[0]) && forall j :: 0 <= j < |es| ==> Calm(tr[j], es[j])
    ensures Distinct(tr[|es|].given) <==> forall j :: 0 <= j < |es| && es[j].Send? ==> GivenBelow(tr[j])
  {
    var holds := j => 0 <= j < |tr| && Distinct(tr[j].given);
    var steps := j => 0 <= j < |es| && (es[j].Send? ==> GivenBelow(tr[j]));
    forall j | 0 <= j < |es| ensures holds(j + 1) <==> holds(j) && steps(j) {
      AlwaysGapless(tr, es, j);
      CalmIsAbove(tr, es, j);
      GivenAt(tr, es, j);
    }
    HoldsIfAllSteps(holds, steps, |es|);
    assert forall j :: 0 <= j < |es| ==> (steps(j) <==> (es[j].Send? ==> GivenBelow(tr[j])));
  }

  /**
   * The id of a message that the socket refused, or that was not flushed before the stop, is given out
   * again after a restart; in the second case it goes out twice.
   */
  lemma IdIsGivenAgain(addr: Addr, m: Message, leaves: bool) returns (tr: seq<Node>, es: seq<Event>)
    ensures es == [Send(m, leaves), Restart(addr, !leaves, true), Send(m, leaves)] && Life(tr, es)
    ensures Started(tr[0]) && forall j :: 0 <= j < |es| ==> Calm(tr[j], es[j])
    ensures tr[|es|].given == [(1, addr), (1, addr)] && !GivenBelow(tr[2])
    ensures leaves ==> tr[|es|].sent == [(1, addr), (1, addr)]
  {
    es := [Send(m, leaves), Restart(addr, !leaves, true), Send(m, leaves)];
    var start := Node(addr, 1, [], [], [], []);
    var one := Step(start, es[0]);
    assert Encoded(LOGS, start.logs) == [];
    assert RowsAtStop(one, !leaves) == [];
    var two := Step(one, es[1]);
    tr := [start, one, two, Step(two, es[2])];
    assert StepAt(tr, es, 0) && StepAt(tr, es, 1) && StepAt(tr, es, 2);
    assert two.given[0] == (1, addr);
  }

  // ---------- ids that went out ----------

  /** An id as large is logged or stored for this address. */
  ghost predicate Covered(logs: seq<Message>, rows: seq<Row>, id: U64, addr: Addr) {
    exists top: U64 :: id <= top && (Logged(logs, top, addr) || Stored(rows, top, addr))
  }

  /**
   * A trim leaves in the log or the table, for each message it drains, one of the same address with an
   * id as large. That the message itself is stored is enough.
   */
  ghost predicate TrimsCovered(n: Node, e: Event) {
    e.Trim? ==>
      forall i :: 0 <= i < |n.logs| - |Trimmed(n.logs)| ==>
        Covered(Trimmed(n.logs), n.rows, n.logs[i].headers.msgId, n.logs[i].headers.srcAddr)
  }

  /** The trim is the one of the hub's log. */
  lemma TrimIsHubTrim<R>(sc: InsertIgnore.Scheme<Message, R, RowKey>, h: HubLog.Hub<Message, R>)
    requires h.WellFormed()
    ensures HubLog.Step(sc, h, HubLog.Trim).Memory() == Trimmed(h.Memory())
    ensures Trimmed(h.Memory()) == if |h.Memory()| > 10_000 then h.Memory()[1000..] else h.Memory()
  {}

  /** A hub that never loses a message by a trim covers all it drains. */
  lemma StoredTrimIsCovered(n: Node)
    requires forall i :: 0 <= i < |n.logs| - |Trimmed(n.logs)| ==> Recorded(LOGS, n.rows, n.logs[i])
    ensures TrimsCovered(n, Trim)
  {
    forall i | 0 <= i < |n.logs| - |Trimmed(n.logs)|
      ensures Covered(Trimmed(n.logs), n.rows, n.logs[i].headers.msgId, n.logs[i].headers.srcAddr)
    {
      EncodingKeepsKey(n.logs[i]);
      var k :| 0 <= k < |n.rows| && LOGS.key(n.rows[k]) == MessageKey(n.logs[i]);
      assert Stored(n.rows, n.logs[i].headers.msgId, n.logs[i].headers.srcAddr);
    }
  }

  /** The stop came with a refresh that committed, and the query of the start answered. */
  ghost predicate CleanRestart(n: Node, e: Event) {
    e.Restart? ==> e.flushes && AcceptsAll(LOGS, n.logs) && e.queryAnswers
  }

  ghost predicate Fresh(n: Node) {
    && (forall i :: 0 <= i < |n.sent| ==> Covered(n.logs, n.rows, n.sent[i].0, n.sent[i].1))
    && (forall i :: 0 <= i < |n.sent| && n.sent[i].1 == n.addr ==> n.sent[i].0 < n.next)
    && Distinct(n.sent) && AllWritten(LOGS, n.rows)
  }

  lemma TrimKeepsCovered(n: Node, id: U64, addr: Addr)
    requires TrimsCovered(n, Trim) && Covered(n.logs, n.rows, id, addr)
    ensures Covered(Trimmed(n.logs), n.rows, id, addr)
  {
    var top: U64 :| id <= top && (Logged(n.logs, top, addr) || Stored(n.rows, top, addr));
    if Logged(n.logs, top, addr) {
      var i :| 0 <= i < |n.logs| && n.logs[i].headers.msgId == top && n.logs[i].headers.srcAddr == addr;
      var drained := |n.logs| - |Trimmed(n.logs)|;
      if i < drained {
        assert Covered(Trimmed(n.logs), n.rows, top, addr);
      } else {
        assert Trimmed(n.logs)[i - drained] == n.logs[i];
        assert Logged(Trimmed(n.logs), top, addr);
      }
    }
  }

  lemma StepKeepsCovered(n: Node, e: Event, id: U64, addr: Addr)
    requires Allowed(n, e) && TrimsCovered(n, e) && CleanRestart(n, e) && Covered(n.logs, n.rows, id, addr)
    ensures Covered(Step(n, e).logs, Step(n, e).rows, id, addr)
    ensures e.Restart? ==> exists top: U64 :: id <= top && Stored(Step(n, e).rows, top, addr)
  {
    var top: U64 :| id <= top && (Logged(n.logs, top, addr) || Stored(n.rows, top, addr));
    match e
    case Send(m, leaves) => LogSnoc(n.logs, Stamped(m, n.next, n.addr), top, addr);
    case Receive(m) => LogSnoc(n.logs, m, top, addr);
    case Trim => TrimKeepsCovered(n, id, addr);
    case Refresh =>
      if Stored(n.rows, top, addr) {
        StoredStays(n.rows, n.logs, top, addr);
      }
    case Restart(_, _, _) =>
      if Stored(n.rows, top, addr) {
        StoredStays(n.rows, n.logs, top, addr);
      } else {
        FlushStores(n.rows, n.logs, top, addr);
      }
  }

  lemma RestartIsFresh(n: Node, addr: Addr, id: U64)
    requires var e := Restart(addr, true, true); Allowed(n, e) && CleanRestart(n, e)
    requires AllWritten(LOGS, n.rows) && Covered(n.logs, n.rows, id, addr)
    ensures id < Step(n, Restart(addr, true, true)).next
  {
    StepKeepsCovered(n, Restart(addr, true, true), id, addr);
    StepWrites(n, Restart(addr, true, true));
    var rows := Step(n, Restart(addr, true, true)).rows;
    var top: U64 :| id <= top && Stored(rows, top, addr);
    StartExceedsStored(rows, addr, top);
  }

  lemma SendKeepsFresh(n: Node, m: Message, leaves: bool)
    requires Fresh(n) && Allowed(n, Send(m, leaves))
    ensures Fresh(Step(n, Send(m, leaves)))
  {
    var next := Step(n, Send(m, leaves));
    forall i | 0 <= i < |n.sent| ensures Covered(next.logs, next.rows, n.sent[i].0, n.sent[i].1) {
      StepKeepsCovered(n, Send(m, leaves), n.sent[i].0, n.sent[i].1);
    }
    if leaves {
      LogSnoc(n.logs, Stamped(m, n.next, n.addr), n.next, n.addr);
      assert Covered(next.logs, next.rows, n.next, n.addr);
      DistinctSnoc(n.sent, (n.next, n.addr));
    }
  }

  lemma StepKeepsFresh(n: Node, e: Event)
    requires Fresh(n) && Allowed(n, e) && TrimsCovered(n, e) && CleanRestart(n, e)
    ensures Fresh(Step(n, e))
  {
    if e.Send? {
      SendKeepsFresh(n, e.m, e.leaves);
    } else {
      var next := Step(n, e);
      StepWrites(n, e);
      forall i | 0 <= i < |n.sent|
        ensures Covered(next.logs, next.rows, n.sent[i].0, n.sent[i].1)
        ensures e.Restart? && n.sent[i].1 == next.addr ==> n.sent[i].0 < next.next
      {
        StepKeepsCovered(n, e, n.sent[i].0, n.sent[i].1);
        if e.Restart? && n.sent[i].1 == next.addr {
          RestartIsFresh(n, e.addr, n.sent[i].0);
        }
      }
    }
  }

  lemma FreshAt(tr: seq<Node>, es: seq<Event>, i: nat)
    requires Life(tr, es) && i < |es| && Fresh(tr[i]) && TrimsCovered(tr[i], es[i]) && CleanRestart(tr[i], es[i])
    ensures Fresh(tr[i + 1])
  {
    assert StepAt(tr, es, i);
    StepKeepsFresh(tr[i], es[i]);
  }

  /**
   * Over any number of restarts and changes of address, and whatever strangers send: no (id, own
   * address) pair goes out twice, and the next id is above every one that went out from the present
   * address.
   */
  lemma {:induction false} SentIdsAreDistinct(tr: seq<Node>, es: seq<Event>, i: nat)
    requires Life(tr, es) && Fresh(tr[0]) && i < |tr|
    requires forall j :: 0 <= j < |es| ==> TrimsCovered(tr[j], es[j]) && CleanRestart(tr[j], es[j])
    ensures Fresh(tr[i]) && Distinct(tr[i].sent)
    ensures forall k :: 0 <= k < |tr[i].sent| && tr[i].sent[k].1 == tr[i].addr ==> tr[i].sent[k].0 < tr[i].next
  {
    if i > 0 {
      SentIdsAreDistinct(tr, es, i - 1);
      FreshAt(tr, es, i - 1);
    }
  }
}
