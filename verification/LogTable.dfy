/** The `logs` table: what a refresh writes, and what the load at start-up reads back. */
module LogTable {
  import opened Types
  import opened Codec
  import opened InsertIgnore
  import Text

  /** The columns of the table's UNIQUE constraint. */
  datatype RowKey = RowKey(msgId: U64, srcAddr: string, srcUsername: string)

  function KeyOf(row: Row): RowKey { RowKey(row.msgId, row.srcAddr, row.srcUsername) }

  function MessageKey(m: Message): RowKey {
    RowKey(m.headers.msgId, Text.ShowAddr(m.headers.srcAddr), m.headers.srcUsername)
  }

  predicate Storable(m: Message) { m.headers.msgId < INTEGER_LIMIT && m.headers.time < INTEGER_LIMIT }

  const LOGS: Scheme<Message, Row, RowKey> := Scheme(EncodeMessage, KeyOf, Storable)

  /**
   * A refresh commits unless the id or the time of some message needs the 64th bit; then it stores
   * nothing, and otherwise a row for every message.
   */
  lemma CommitsIff(rows: seq<Row>, logs: seq<Message>)
    ensures var after := Refreshed(LOGS, rows, logs);
            if exists m <- logs :: m.headers.msgId >= 0x8000_0000_0000_0000 || m.headers.time >= 0x8000_0000_0000_0000
            then after == rows
            else rows <= after && forall m <- logs :: HasKey(LOGS, after, MessageKey(m))
  {
    InsertAllKeeps(LOGS, rows, Encoded(LOGS, logs));
    if m :| m in logs && !Storable(m) {
      var i :| 0 <= i < |logs| && logs[i] == m;
      assert !LOGS.accepts(logs[i]);
    } else {
      forall m | m in logs ensures HasKey(LOGS, Refreshed(LOGS, rows, logs), MessageKey(m)) {
        RefreshKeepsRecords(LOGS, rows, logs, m);
        EncodingKeepsKey(m);
      }
    }
  }

  /** Messages share a row exactly when they agree in id, source address and source name. */
  lemma SameRowIff(m: Message, n: Message)
    ensures LOGS.key(LOGS.encode(m)) == LOGS.key(LOGS.encode(n))
            <==> m.headers.msgId == n.headers.msgId && m.headers.srcAddr == n.headers.srcAddr
                 && m.headers.srcUsername == n.headers.srcUsername
  {
    EncodingKeepsKey(m);
    EncodingKeepsKey(n);
    if Text.ShowAddr(m.headers.srcAddr) == Text.ShowAddr(n.headers.srcAddr) {
      Text.ShowAddrInjective(m.headers.srcAddr, n.headers.srcAddr);
    }
  }

  /** How a message is read back from its row; None is the message whose row stops the load. */
  function Back(m: Message): Option<Message> {
    if Reloadable(m.payload) then Some(ReloadedMessage(m)) else None
  }

  lemma EncodingKeepsKey(m: Message)
    ensures LOGS.key(LOGS.encode(m)) == MessageKey(m)
  {}

  lemma RowsReadBack()
    ensures ReadsBack(LOGS, DecodeRow, Back)
  {
    forall m: Message
      ensures DecodeRow(LOGS.encode(m)) == match Back(m) case Some(x) => Loaded(x) case None => Aborted
    {
      MessageRoundTrip(m);
    }
  }

  /**
   * What a node finds when it starts after any history of refreshes: the first occurrence of every
   * message ever committed, in order; unless one of them names a peer with a bar, which stops it.
   */
  lemma StartUp(snapshots: seq<seq<Message>>)
    ensures LoadAll(DecodeRow, AfterRefreshes(LOGS, snapshots))
         == FirstsBack(LOGS, Back, Committed(LOGS, snapshots))
    ensures
      var logged := Committed(LOGS, snapshots);
      LoadAll(DecodeRow, AfterRefreshes(LOGS, snapshots)).None?
      <==> exists i :: IsFirst(LOGS, Encoded(LOGS, logged), i) && Back(logged[i]).None?
  {
    TableIsDedup(LOGS, snapshots);
    RowsReadBack();
    LoadOfDedup(LOGS, DecodeRow, Back, Committed(LOGS, snapshots));
    FirstsBackFails(LOGS, Back, Committed(LOGS, snapshots));
  }

  lemma BackKeepsKeys()
    ensures BackKeeps(LOGS, Back)
  {
    forall m: Message | Back(m).Some?
      ensures LOGS.key(LOGS.encode(Back(m).value)) == LOGS.key(LOGS.encode(m))
      ensures LOGS.accepts(m) ==> LOGS.accepts(Back(m).value)
    {
      EncodingKeepsKey(m);
      EncodingKeepsKey(Back(m).value);
    }
  }

  /** However often a node with any history restarts, its table stays and it loads the same log. */
  lemma RestartsKeepLog(snapshots: seq<seq<Message>>, n: nat)
    requires LoadAll(DecodeRow, AfterRefreshes(LOGS, snapshots)).Some?
    ensures Restarted(LOGS, DecodeRow, AfterRefreshes(LOGS, snapshots), n)
         == Some(AfterRefreshes(LOGS, snapshots))
  {
    RowsReadBack();
    BackKeepsKeys();
    HistoryRows(LOGS, snapshots);
    RestartsAreIdle(LOGS, DecodeRow, Back, AfterRefreshes(LOGS, snapshots), n);
  }
}
