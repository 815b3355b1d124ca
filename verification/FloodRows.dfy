/** What the database of a relaying node keeps of a flood. */
module FloodRows {
  import opened Types
  import opened InsertIgnore
  import opened Codec
  import opened LogTable
  import opened Flood
  import opened FloodTheorems

  /** Of entries that share a key, only the first is inserted. */
  lemma {:induction false} SharedKey<M, R, K>(sc: Scheme<M, R, K>, rows: seq<R>, more: seq<R>, key: K)
    requires more != [] && !HasKey(sc, rows, key)
    requires forall i :: 0 <= i < |more| ==> sc.key(more[i]) == key
    ensures InsertAll(sc, rows, more) == rows + [more[0]]
  {
    var init, last := more[..|more| - 1], more[|more| - 1];
    if init == [] {
      assert InsertAll(sc, rows, init) == rows;
    } else {
      SharedKey(sc, rows, init, key);
      HasKeySnoc(sc, rows, more[0], key);
    }
  }

  /** What a refresh adds for entries that share a key, when all entries before them are known. */
  lemma RefreshSharedKey<M, R, K>(sc: Scheme<M, R, K>, rows: seq<R>, tail: seq<M>, key: K)
    requires AcceptsAll(sc, tail)
    requires forall i :: 0 <= i < |tail| ==> sc.key(sc.encode(tail[i])) == key
    ensures Refreshed(sc, rows, tail)
         == if tail == [] || HasKey(sc, rows, key) then rows else rows + [sc.encode(tail[0])]
  {
    if tail != [] {
      if HasKey(sc, rows, key) {
        InsertAllKnown(sc, rows, Encoded(sc, tail));
      } else {
        SharedKey(sc, rows, Encoded(sc, tail), key);
      }
    }
  }

  lemma AcceptsJoin<M, R, K>(sc: Scheme<M, R, K>, a: seq<M>, b: seq<M>)
    ensures AcceptsAll(sc, a + b) <==> AcceptsAll(sc, a) && AcceptsAll(sc, b)
  {
    forall i | 0 <= i < |a| ensures (a + b)[i] == a[i] {}
    forall i | 0 <= i < |b| ensures b[i] == (a + b)[|a| + i] {}
  }

  /** A table that already knows the entries before the tail, or is fed them along with it. */
  lemma RefreshAgain<M, R, K>(sc: Scheme<M, R, K>, rows: seq<R>, extra: seq<R>, prior: seq<M>, tail: seq<M>)
    requires AcceptsAll(sc, prior) && AcceptsAll(sc, tail)
    ensures var known := Refreshed(sc, rows, prior);
            && Refreshed(sc, rows, prior + tail) == Refreshed(sc, known, tail)
            && Refreshed(sc, known + extra, prior + tail) == Refreshed(sc, known + extra, tail)
  {
    AcceptsJoin(sc, prior, tail);
    assert Encoded(sc, prior + tail) == Encoded(sc, prior) + Encoded(sc, tail);
    InsertAllAppends(sc, rows, Encoded(sc, prior), Encoded(sc, tail));
    var known := Refreshed(sc, rows, prior);
    forall i | 0 <= i < |prior| ensures HasKey(sc, known + extra, sc.key(sc.encode(prior[i]))) {
      assert prior[i] in prior;
      RefreshKeepsRecords(sc, rows, prior, prior[i]);
      var k :| 0 <= k < |known| && sc.key(known[k]) == sc.key(sc.encode(prior[i]));
      assert (known + extra)[k] == known[k];
    }
    RefreshKnownPrefix(sc, known + extra, prior, tail);
  }

  lemma TailSharesKey(tail: seq<Message>, m: Message)
    requires SameMessage(tail, m)
    ensures forall i :: 0 <= i < |tail| ==> LOGS.key(LOGS.encode(tail[i])) == MessageKey(m)
    ensures Storable(m) ==> AcceptsAll(LOGS, tail)
  {
    forall i | 0 <= i < |tail|
      ensures LOGS.key(LOGS.encode(tail[i])) == MessageKey(m) && Storable(tail[i]) == Storable(m)
    {
      assert tail[i] in tail;
      EncodingKeepsKey(tail[i]);
    }
  }

  predicate Within(ks: seq<nat>, n: nat) { forall j :: 0 <= j < |ks| ==> ks[j] <= n }

  /** One node and its log during a flood. */
  datatype Seat = Seat(g: Tables, m: Message, relay: Addr, logs: map<Addr, seq<Message>>, v: Addr) {

    ghost predicate Valid() { v in logs }

    ghost function Log(es: seq<Event>): seq<Message> {
      var n := After(g, Start(m, relay, logs), es); if v in n.logs then n.logs[v] else []
    }

    ghost function Arrived(es: seq<Event>): seq<Copy> { ArrivedAt(After(g, Start(m, relay, logs), es).delivered, v) }

    /** The table after refreshes in the course of the flood: after ks[0] events, ks[1] events, and so on. */
    ghost function Table(rows: seq<Row>, es: seq<Event>, ks: seq<nat>): seq<Row>
      requires Within(ks, |es|)
    {
      if ks == [] then rows
      else Refreshed(LOGS, Table(rows, es, ks[..|ks| - 1]), Log(es[..ks[|ks| - 1]]))
    }

    /** A refresh after k events finds a copy in the log. */
    ghost predicate Finds(es: seq<Event>, k: nat)
      requires k <= |es|
    {
      Arrived(es[..k]) != []
    }

    ghost predicate SomeFinds(es: seq<Event>, ks: seq<nat>)
      requires Within(ks, |es|)
    {
      ks != [] && (SomeFinds(es, ks[..|ks| - 1]) || Finds(es, ks[|ks| - 1]))
    }
  }

  lemma {:induction false} ArrivedGrows(seat: Seat, es: seq<Event>, k: nat)
    requires k <= |es|
    ensures seat.Arrived(es[..k]) <= seat.Arrived(es)
  {
    if k == |es| {
      assert es[..k] == es;
    } else {
      var init, e := es[..|es| - 1], es[|es| - 1];
      assert init[..k] == es[..k];
      ArrivedGrows(seat, init, k);
      var before := After(seat.g, Start(seat.m, seat.relay, seat.logs), init).delivered;
      assert (before + [e.c])[..|before|] == before;
    }
  }

  /** What one more refresh makes of a table, when the log has grown by entries of one new key. */
  lemma RefreshOnce<M, R, K>(sc: Scheme<M, R, K>, rows: seq<R>, table: seq<R>, row: R, had: bool,
                             prior: seq<M>, tail: seq<M>, key: K)
    requires AcceptsAll(sc, prior) && AcceptsAll(sc, tail)
    requires !HasKey(sc, rows, key) && !HasKey(sc, Encoded(sc, prior), key) && sc.key(row) == key
    requires forall i :: 0 <= i < |tail| ==> sc.key(sc.encode(tail[i])) == key
    requires tail != [] ==> sc.encode(tail[0]) == row
    requires var known := Refreshed(sc, rows, prior);
             if had then table == known + [row] else table == rows || table == known
    ensures var known := Refreshed(sc, rows, prior);
            Refreshed(sc, table, prior + tail) == if had || tail != [] then known + [row] else known
  {
    var known := Refreshed(sc, rows, prior);
    InsertAllKeys(sc, rows, Encoded(sc, prior), key);
    HasKeySnoc(sc, known, row, key);
    RefreshAgain(sc, rows, if had then [row] else [], prior, tail);
    assert known + [] == known;
    RefreshSharedKey(sc, if had then known + [row] else known, tail, key);
  }

  /** What a node's log gained by some point of the flood. */
  lemma LogTail(seat: Seat, es: seq<Event>) returns (tail: seq<Message>)
    requires seat.Valid() && Storable(seat.m)
    ensures seat.Log(es) == seat.logs[seat.v] + tail && AcceptsAll(LOGS, tail)
    ensures forall i :: 0 <= i < |tail| ==> LOGS.key(LOGS.encode(tail[i])) == MessageKey(seat.m)
    ensures tail != [] <==> seat.Arrived(es) != []
    ensures tail != [] ==> tail[0] == seat.Arrived(es)[0].msg
  {
    tail := LogOfFlood(seat.g, seat.m, seat.relay, seat.logs, es, seat.v);
    TailSharesKey(tail, seat.m);
  }

  /** What one more refresh at some point of the flood makes of the table. */
  lemma OneRefresh(seat: Seat, es: seq<Event>, k: nat, rows: seq<Row>, table: seq<Row>, row: Row, had: bool)
    requires seat.Valid() && k <= |es| && AcceptsAll(LOGS, seat.logs[seat.v]) && Storable(seat.m)
    requires !HasKey(LOGS, rows, MessageKey(seat.m))
    requires !HasKey(LOGS, Encoded(LOGS, seat.logs[seat.v]), MessageKey(seat.m))
    requires seat.Arrived(es) != [] ==> row == LOGS.encode(seat.Arrived(es)[0].msg)
    requires LOGS.key(row) == MessageKey(seat.m)
    requires var known := Refreshed(LOGS, rows, seat.logs[seat.v]);
             if had then table == known + [row] else table == rows || table == known
    ensures var known := Refreshed(LOGS, rows, seat.logs[seat.v]);
            Refreshed(LOGS, table, seat.Log(es[..k]))
            == if had || seat.Arrived(es[..k]) != [] then known + [row] else known
  {
    var tail := LogTail(seat, es[..k]);
    ArrivedGrows(seat, es, k);
    RefreshOnce(LOGS, rows, table, row, had, seat.logs[seat.v], tail, MessageKey(seat.m));
  }

  lemma {:induction false} TableInFlood(seat: Seat, es: seq<Event>, ks: seq<nat>, rows: seq<Row>, row: Row)
    requires seat.Valid() && AcceptsAll(LOGS, seat.logs[seat.v]) && Storable(seat.m)
    requires Within(ks, |es|)
    requires !HasKey(LOGS, rows, MessageKey(seat.m))
    requires !HasKey(LOGS, Encoded(LOGS, seat.logs[seat.v]), MessageKey(seat.m))
    requires seat.Arrived(es) != [] ==> row == LOGS.encode(seat.Arrived(es)[0].msg)
    requires LOGS.key(row) == MessageKey(seat.m)
    ensures seat.Table(rows, es, ks)
         == if ks == [] then rows
            else Refreshed(LOGS, rows, seat.logs[seat.v]) + (if seat.SomeFinds(es, ks) then [row] else [])
  {
    if ks != [] {
      var init, k := ks[..|ks| - 1], ks[|ks| - 1];
      TableInFlood(seat, es, init, rows, row);
      var known := Refreshed(LOGS, rows, seat.logs[seat.v]);
      assert known + [] == known;
      OneRefresh(seat, es, k, rows, seat.Table(rows, es, init), row, seat.SomeFinds(es, init));
    }
  }

  /** The row for the first copy received; or any row under the message's key, while there is none. */
  lemma RowOfFirst(seat: Seat, es: seq<Event>) returns (row: Row)
    requires seat.Valid()
    ensures LOGS.key(row) == MessageKey(seat.m)
    ensures seat.Arrived(es) != [] ==>
              var first := seat.Arrived(es)[0].msg; row == LOGS.encode(first) && first == seat.m.(lastHop := first.lastHop)
    ensures |seat.Log(es)|
         == |seat.logs[seat.v]| + |seat.Arrived(es)| * (1 + |Edges(seat.g, seat.m.headers, seat.v)|)
  {
    var tail := LogOfFlood(seat.g, seat.m, seat.relay, seat.logs, es, seat.v);
    if seat.Arrived(es) == [] {
      EncodingKeepsKey(seat.m);
      row := LOGS.encode(seat.m);
    } else {
      assert tail[0] in tail;
      EncodingKeepsKey(tail[0]);
      row := LOGS.encode(tail[0]);
    }
  }

  lemma {:induction false} FindsMeansArrived(seat: Seat, es: seq<Event>, ks: seq<nat>)
    requires Within(ks, |es|) && seat.SomeFinds(es, ks)
    ensures seat.Arrived(es) != []
  {
    if seat.Finds(es, ks[|ks| - 1]) {
      ArrivedGrows(seat, es, ks[|ks| - 1]);
    } else {
      FindsMeansArrived(seat, es, ks[..|ks| - 1]);
    }
  }

  /**
   * A node logs a flooded message once for each copy it received and each copy it sent on. However
   * many refreshes there are, before, between and after the copies, the table gets one row for it, by
   * the first refresh that finds a copy: the first copy received, whose last hop is the node it came
   * from.
   */
  lemma FloodLeavesOneRow(seat: Seat, es: seq<Event>, ks: seq<nat>, rows: seq<Row>)
    requires seat.Valid() && AcceptsAll(LOGS, seat.logs[seat.v]) && Storable(seat.m)
    requires ks != [] && Within(ks, |es|)
    requires !HasKey(LOGS, rows, MessageKey(seat.m))
    requires !HasKey(LOGS, Encoded(LOGS, seat.logs[seat.v]), MessageKey(seat.m))
    ensures
      var before := Refreshed(LOGS, rows, seat.logs[seat.v]);
      && !HasKey(LOGS, before, MessageKey(seat.m))
      && (!seat.SomeFinds(es, ks) ==> seat.Table(rows, es, ks) == before)
      && (seat.SomeFinds(es, ks) ==>
            && seat.Arrived(es) != []
            && var first := seat.Arrived(es)[0];
               && seat.Table(rows, es, ks) == before + [LOGS.encode(first.msg)]
               && first.msg == seat.m.(lastHop := first.msg.lastHop))
    ensures |seat.Log(es)|
         == |seat.logs[seat.v]| + |seat.Arrived(es)| * (1 + |Edges(seat.g, seat.m.headers, seat.v)|)
  {
    var row := RowOfFirst(seat, es);
    InsertAllKeys(LOGS, rows, Encoded(LOGS, seat.logs[seat.v]), MessageKey(seat.m));
    TableInFlood(seat, es, ks, rows, row);
    if seat.SomeFinds(es, ks) {
      FindsMeansArrived(seat, es, ks);
    }
  }
}
