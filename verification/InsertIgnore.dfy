/**
 * A table that is only ever fed whole snapshots by "insert, ignore duplicates", for any kind of
 * entry, row and unique key. A snapshot is one transaction: it goes in completely or not at all.
 */
module InsertIgnore {
  import opened Types

  /** What reading one row does: give a value, pass over the row, or stop the whole load. */
  datatype Reading<+T> = Loaded(value: T) | Skipped | Aborted

  /** How an entry becomes a row, which columns are unique, and which entries a statement accepts. */
  datatype Scheme<!M, !R, !K> = Scheme(encode: M -> R, key: R -> K, accepts: M -> bool)

  predicate HasKey<M, R, K(==)>(sc: Scheme<M, R, K>, rows: seq<R>, key: K) {
    exists i :: 0 <= i < |rows| && sc.key(rows[i]) == key
  }

  predicate AcceptsAll<M, R, K>(sc: Scheme<M, R, K>, entries: seq<M>) {
    forall i :: 0 <= i < |entries| ==> sc.accepts(entries[i])
  }

  function Encoded<M, R, K>(sc: Scheme<M, R, K>, entries: seq<M>): (rows: seq<R>)
    ensures |rows| == |entries|
    ensures forall i :: 0 <= i < |rows| ==> rows[i] == sc.encode(entries[i])
  {
    seq(|entries|, i requires 0 <= i < |entries| => sc.encode(entries[i]))
  }

  function InsertOrIgnore<M, R, K(==)>(sc: Scheme<M, R, K>, rows: seq<R>, row: R): seq<R> {
    if HasKey(sc, rows, sc.key(row)) then rows else rows + [row]
  }

  function InsertAll<M, R, K(==)>(sc: Scheme<M, R, K>, rows: seq<R>, more: seq<R>): seq<R> {
    if more == [] then rows
    else InsertOrIgnore(sc, InsertAll(sc, rows, more[..|more| - 1]), more[|more| - 1])
  }

  /** The table after one refresh. */
  function Refreshed<M, R, K(==)>(sc: Scheme<M, R, K>, rows: seq<R>, entries: seq<M>): seq<R> {
    if AcceptsAll(sc, entries) then InsertAll(sc, rows, Encoded(sc, entries)) else rows
  }

  /** The table after a history of refreshes, starting from the empty table. */
  function AfterRefreshes<M, R, K(==)>(sc: Scheme<M, R, K>, snapshots: seq<seq<M>>): seq<R> {
    if snapshots == [] then []
    else Refreshed(sc, AfterRefreshes(sc, snapshots[..|snapshots| - 1]), snapshots[|snapshots| - 1])
  }

  /** Everything in the snapshots whose transaction commits, one snapshot after the other. */
  function Committed<M, R, K>(sc: Scheme<M, R, K>, snapshots: seq<seq<M>>): seq<M> {
    if snapshots == [] then [] else
    var last := snapshots[|snapshots| - 1];
    Committed(sc, snapshots[..|snapshots| - 1]) + (if AcceptsAll(sc, last) then last else [])
  }

  /** Row i comes before every other row with its key. */
  ghost predicate IsFirst<M, R, K>(sc: Scheme<M, R, K>, rows: seq<R>, i: int) {
    0 <= i < |rows| && forall j :: 0 <= j < i ==> sc.key(rows[j]) != sc.key(rows[i])
  }

  /** The rows that come before every other row with their key, in order. */
  ghost function FirstOccurrences<M, R, K>(sc: Scheme<M, R, K>, rows: seq<R>): seq<R> {
    if rows == [] then [] else
    var last := |rows| - 1;
    FirstOccurrences(sc, rows[..last]) + (if IsFirst(sc, rows, last) then [rows[last]] else [])
  }

  ghost predicate DistinctKeys<M, R, K>(sc: Scheme<M, R, K>, rows: seq<R>) {
    forall i, j :: 0 <= i < j < |rows| ==> sc.key(rows[i]) != sc.key(rows[j])
  }

  lemma HasKeySnoc<M, R, K>(sc: Scheme<M, R, K>, rows: seq<R>, row: R, key: K)
    ensures HasKey(sc, rows + [row], key) <==> HasKey(sc, rows, key) || sc.key(row) == key
  {
    if HasKey(sc, rows, key) {
      var i :| 0 <= i < |rows| && sc.key(rows[i]) == key;
      assert (rows + [row])[i] == rows[i];
    }
    assert (rows + [row])[|rows|] == row;
  }

  lemma {:induction false} InsertAllAppends<M, R, K>(sc: Scheme<M, R, K>, rows: seq<R>, a: seq<R>, b: seq<R>)
    ensures InsertAll(sc, rows, a + b) == InsertAll(sc, InsertAll(sc, rows, a), b)
  {
    if b == [] {
      assert a + b == a;
    } else {
      assert (a + b)[..|a + b| - 1] == a + b[..|b| - 1];
      InsertAllAppends(sc, rows, a, b[..|b| - 1]);
    }
  }

  lemma {:induction false} FirstOccurrencesKeys<M, R, K>(sc: Scheme<M, R, K>, rows: seq<R>, key: K)
    ensures HasKey(sc, FirstOccurrences(sc, rows), key) <==> HasKey(sc, rows, key)
  {
    if rows != [] {
      var last := |rows| - 1;
      var init := rows[..last];
      FirstOccurrencesKeys(sc, init, key);
      HasKeySnoc(sc, init, rows[last], key);
      assert rows == init + [rows[last]];
      if IsFirst(sc, rows, last) {
        HasKeySnoc(sc, FirstOccurrences(sc, init), rows[last], key);
      } else {
        var j :| 0 <= j < last && sc.key(rows[j]) == sc.key(rows[last]);
        assert sc.key(init[j]) == sc.key(rows[last]);
        assert FirstOccurrences(sc, rows) == FirstOccurrences(sc, init);
      }
    }
  }

  lemma {:induction false} InsertAllIsDedup<M, R, K>(sc: Scheme<M, R, K>, rows: seq<R>)
    ensures InsertAll(sc, [], rows) == FirstOccurrences(sc, rows)
  {
    if rows != [] {
      var last := |rows| - 1;
      InsertAllIsDedup(sc, rows[..last]);
      FirstOccurrencesKeys(sc, rows[..last], sc.key(rows[last]));
    }
  }

  lemma OneMoreRefresh<M, R, K>(sc: Scheme<M, R, K>, logged: seq<M>, last: seq<M>)
    ensures Refreshed(sc, InsertAll(sc, [], Encoded(sc, logged)), last)
         == InsertAll(sc, [], Encoded(sc, logged + (if AcceptsAll(sc, last) then last else [])))
  {
    if AcceptsAll(sc, last) {
      assert Encoded(sc, logged + last) == Encoded(sc, logged) + Encoded(sc, last);
      InsertAllAppends(sc, [], Encoded(sc, logged), Encoded(sc, last));
    } else {
      assert logged + [] == logged;
    }
  }

  lemma {:induction false} HistoryIsInsertAll<M, R, K>(sc: Scheme<M, R, K>, snapshots: seq<seq<M>>)
    ensures AfterRefreshes(sc, snapshots) == InsertAll(sc, [], Encoded(sc, Committed(sc, snapshots)))
  {
    if snapshots != [] {
      HistoryIsInsertAll(sc, snapshots[..|snapshots| - 1]);
      OneMoreRefresh(sc, Committed(sc, snapshots[..|snapshots| - 1]), snapshots[|snapshots| - 1]);
    }
  }

  /** After any history of refreshes the table is the dedup of everything committed, in order. */
  lemma TableIsDedup<M, R, K>(sc: Scheme<M, R, K>, snapshots: seq<seq<M>>)
    ensures AfterRefreshes(sc, snapshots) == FirstOccurrences(sc, Encoded(sc, Committed(sc, snapshots)))
  {
    HistoryIsInsertAll(sc, snapshots);
    InsertAllIsDedup(sc, Encoded(sc, Committed(sc, snapshots)));
  }

  /** What the dedup holds: each first row once, and nothing else. */
  lemma {:induction false} DedupMeaning<M, R, K>(sc: Scheme<M, R, K>, rows: seq<R>)
    ensures DistinctKeys(sc, FirstOccurrences(sc, rows))
    ensures forall k :: 0 <= k < |FirstOccurrences(sc, rows)| ==>
              exists i :: IsFirst(sc, rows, i) && rows[i] == FirstOccurrences(sc, rows)[k]
    ensures forall i :: IsFirst(sc, rows, i) ==> rows[i] in FirstOccurrences(sc, rows)
  {
    if rows != [] {
      var last := |rows| - 1;
      var init := rows[..last];
      DedupMeaning(sc, init);
      var kept, all := FirstOccurrences(sc, init), FirstOccurrences(sc, rows);
      assert forall i :: 0 <= i < last ==> (IsFirst(sc, rows, i) <==> IsFirst(sc, init, i));
      forall k | 0 <= k < |all|
        ensures exists i :: IsFirst(sc, rows, i) && rows[i] == all[k]
        ensures k < |kept| && IsFirst(sc, rows, last) ==> sc.key(all[k]) != sc.key(rows[last])
      {
        if k < |kept| {
          var i :| IsFirst(sc, init, i) && init[i] == kept[k];
          assert IsFirst(sc, rows, i) && rows[i] == all[k];
        } else {
          assert IsFirst(sc, rows, last) && rows[last] == all[k];
        }
      }
    }
  }

  /** Rows are never altered or removed, and keys stay unique. */
  lemma {:induction false} InsertAllKeeps<M, R, K>(sc: Scheme<M, R, K>, rows: seq<R>, more: seq<R>)
    ensures rows <= InsertAll(sc, rows, more)
    ensures DistinctKeys(sc, rows) ==> DistinctKeys(sc, InsertAll(sc, rows, more))
  {
    if more != [] {
      InsertAllKeeps(sc, rows, more[..|more| - 1]);
    }
  }

  /** The keys added are those of the new rows. */
  lemma {:induction false} InsertAllKeys<M, R, K>(sc: Scheme<M, R, K>, rows: seq<R>, more: seq<R>, key: K)
    ensures HasKey(sc, InsertAll(sc, rows, more), key) <==> HasKey(sc, rows, key) || HasKey(sc, more, key)
  {
    if more != [] {
      var init, row := more[..|more| - 1], more[|more| - 1];
      InsertAllKeys(sc, rows, init, key);
      InsertAllKeys(sc, rows, init, sc.key(row));
      assert more == init + [row];
      HasKeySnoc(sc, init, row, key);
      HasKeySnoc(sc, InsertAll(sc, rows, init), row, key);
    }
  }

  /** An entry is in the table when a row has its key, whatever else that row says. */
  predicate Recorded<M, R, K(==)>(sc: Scheme<M, R, K>, rows: seq<R>, m: M) {
    HasKey(sc, rows, sc.key(sc.encode(m)))
  }

  lemma RefreshKeepsRecords<M, R, K>(sc: Scheme<M, R, K>, rows: seq<R>, snapshot: seq<M>, m: M)
    ensures Recorded(sc, rows, m) ==> Recorded(sc, Refreshed(sc, rows, snapshot), m)
    ensures AcceptsAll(sc, snapshot) && m in snapshot ==> Recorded(sc, Refreshed(sc, rows, snapshot), m)
  {
    var more := Encoded(sc, snapshot);
    InsertAllKeys(sc, rows, more, sc.key(sc.encode(m)));
    if m in snapshot {
      var i :| 0 <= i < |snapshot| && snapshot[i] == m;
      assert sc.key(more[i]) == sc.key(sc.encode(m));
    }
  }

  /** Nothing is inserted when every key is there already. */
  lemma {:induction false} InsertAllKnown<M, R, K>(sc: Scheme<M, R, K>, rows: seq<R>, more: seq<R>)
    requires forall i :: 0 <= i < |more| ==> HasKey(sc, rows, sc.key(more[i]))
    ensures InsertAll(sc, rows, more) == rows
  {
    if more != [] {
      InsertAllKnown(sc, rows, more[..|more| - 1]);
    }
  }

  /** Inserting rows that are known already changes nothing for those that follow. */
  lemma RefreshKnownPrefix<M, R, K>(sc: Scheme<M, R, K>, rows: seq<R>, known: seq<M>, more: seq<M>)
    requires AcceptsAll(sc, known)
    requires forall i :: 0 <= i < |known| ==> HasKey(sc, rows, sc.key(sc.encode(known[i])))
    ensures Refreshed(sc, rows, known) == rows
    ensures Refreshed(sc, rows, known + more) == Refreshed(sc, rows, more)
  {
    InsertAllKnown(sc, rows, Encoded(sc, known));
    assert Encoded(sc, known + more) == Encoded(sc, known) + Encoded(sc, more);
    InsertAllAppends(sc, rows, Encoded(sc, known), Encoded(sc, more));
    if AcceptsAll(sc, known + more) {
      forall i | 0 <= i < |more| ensures sc.accepts(more[i]) {
        assert more[i] == (known + more)[|known| + i];
      }
    }
  }

  /** Every row of the table satisfies what every encoding of an accepted entry satisfies. */
  lemma {:induction false} HistoryRows<M(!new), R, K>(sc: Scheme<M, R, K>, snapshots: seq<seq<M>>)
    ensures forall k :: 0 <= k < |AfterRefreshes(sc, snapshots)| ==> Written(sc, AfterRefreshes(sc, snapshots)[k])
  {
    if snapshots != [] {
      var before := AfterRefreshes(sc, snapshots[..|snapshots| - 1]);
      HistoryRows(sc, snapshots[..|snapshots| - 1]);
      RefreshedRows(sc, before, snapshots[|snapshots| - 1]);
    }
  }

  /** A row put there by a committed refresh. */
  ghost predicate Written<M(!new), R, K>(sc: Scheme<M, R, K>, row: R) {
    exists m: M :: sc.accepts(m) && sc.encode(m) == row
  }

  ghost predicate AllWritten<M(!new), R, K>(sc: Scheme<M, R, K>, rows: seq<R>) {
    forall k :: 0 <= k < |rows| ==> Written(sc, rows[k])
  }

  lemma RefreshedRows<M(!new), R, K>(sc: Scheme<M, R, K>, rows: seq<R>, entries: seq<M>)
    requires AllWritten(sc, rows)
    ensures AllWritten(sc, Refreshed(sc, rows, entries))
  {
    if AcceptsAll(sc, entries) {
      var more := Encoded(sc, entries);
      forall k | 0 <= k < |more| ensures Written(sc, more[k]) {
        assert sc.accepts(entries[k]) && sc.encode(entries[k]) == more[k];
      }
      InsertAllWritten(sc, rows, more);
    }
  }

  lemma {:induction false} InsertAllWritten<M(!new), R, K>(sc: Scheme<M, R, K>, rows: seq<R>, more: seq<R>)
    requires AllWritten(sc, rows) && AllWritten(sc, more)
    ensures AllWritten(sc, InsertAll(sc, rows, more))
  {
    if more != [] {
      InsertAllWritten(sc, rows, more[..|more| - 1]);
    }
  }

  // ---------- loading ----------

  /** Reads the rows in order; None is a load that was stopped. */
  function LoadAll<M, R>(decode: R -> Reading<M>, rows: seq<R>): Option<seq<M>> {
    if rows == [] then Some([]) else
    match (LoadAll(decode, rows[..|rows| - 1]), decode(rows[|rows| - 1]))
    case (Some(before), Loaded(m)) => Some(before + [m])
    case (Some(before), Skipped) => Some(before)
    case _ => None
  }

  /** The load gives up exactly when some row stops it. */
  lemma {:induction false} LoadFails<M, R>(decode: R -> Reading<M>, rows: seq<R>)
    ensures LoadAll(decode, rows) == None <==> exists k :: 0 <= k < |rows| && decode(rows[k]) == Aborted
  {
    if rows != [] {
      var init, last := rows[..|rows| - 1], rows[|rows| - 1];
      LoadFails(decode, init);
      if k :| 0 <= k < |init| && decode(init[k]) == Aborted {
        assert rows[k] == init[k];
      }
    }
  }

  /** How an accepted entry is read back from its row; None is an entry whose row stops the load. */
  ghost predicate ReadsBack<M(!new), R, K>(sc: Scheme<M, R, K>, decode: R -> Reading<M>, back: M -> Option<M>) {
    forall m: M :: decode(sc.encode(m)) == match back(m) case Some(x) => Loaded(x) case None => Aborted
  }

  /** The first occurrences among what was logged, as they are read back, in order. */
  ghost function FirstsBack<M, R, K>(sc: Scheme<M, R, K>, back: M -> Option<M>, logged: seq<M>): Option<seq<M>> {
    if logged == [] then Some([]) else
    var last := |logged| - 1;
    var before := FirstsBack(sc, back, logged[..last]);
    if !IsFirst(sc, Encoded(sc, logged), last) then before
    else if before.Some? && back(logged[last]).Some? then Some(before.value + [back(logged[last]).value])
    else None
  }

  lemma {:induction false} LoadOfDedup<M(!new), R, K>(sc: Scheme<M, R, K>, decode: R -> Reading<M>,
                                                      back: M -> Option<M>, logged: seq<M>)
    requires ReadsBack(sc, decode, back)
    ensures LoadAll(decode, FirstOccurrences(sc, Encoded(sc, logged))) == FirstsBack(sc, back, logged)
  {
    if logged != [] {
      var last := |logged| - 1;
      LoadOfDedup(sc, decode, back, logged[..last]);
      var rows := Encoded(sc, logged);
      assert rows[..last] == Encoded(sc, logged[..last]);
      var kept := FirstOccurrences(sc, rows[..last]);
      if IsFirst(sc, rows, last) {
        assert (kept + [rows[last]])[..|kept|] == kept;
      } else {
        assert FirstOccurrences(sc, rows) == kept;
      }
    }
  }

  /** Some first occurrence stops the load, or none does. */
  lemma {:induction false} FirstsBackFails<M, R, K>(sc: Scheme<M, R, K>, back: M -> Option<M>, logged: seq<M>)
    ensures FirstsBack(sc, back, logged) == None
            <==> exists i :: IsFirst(sc, Encoded(sc, logged), i) && back(logged[i]) == None
  {
    if logged != [] {
      var last := |logged| - 1;
      var rows, init := Encoded(sc, logged), Encoded(sc, logged[..last]);
      FirstsBackFails(sc, back, logged[..last]);
      forall i | 0 <= i < last ensures IsFirst(sc, rows, i) <==> IsFirst(sc, init, i) {
        assert forall j :: 0 <= j <= i ==> rows[j] == init[j];
      }
      if i :| IsFirst(sc, init, i) && back(logged[..last][i]) == None {
        assert IsFirst(sc, rows, i) && back(logged[i]) == None;
      }
    }
  }

  /** Reading an entry back changes neither its key nor that a statement accepts it. */
  ghost predicate BackKeeps<M(!new), R, K>(sc: Scheme<M, R, K>, back: M -> Option<M>) {
    forall m: M :: back(m).Some? ==>
      sc.key(sc.encode(back(m).value)) == sc.key(sc.encode(m)) && (sc.accepts(m) ==> sc.accepts(back(m).value))
  }

  lemma {:induction false} LoadedKeys<M(!new), R, K>(sc: Scheme<M, R, K>, decode: R -> Reading<M>,
                                                     back: M -> Option<M>, rows: seq<R>)
    requires ReadsBack(sc, decode, back) && BackKeeps(sc, back)
    requires AllWritten(sc, rows) && LoadAll(decode, rows).Some?
    ensures var entries := LoadAll(decode, rows).value;
            && |entries| == |rows| && AcceptsAll(sc, entries)
            && forall i :: 0 <= i < |rows| ==> sc.key(sc.encode(entries[i])) == sc.key(rows[i])
  {
    if rows != [] {
      LoadedKeys(sc, decode, back, rows[..|rows| - 1]);
      assert Written(sc, rows[|rows| - 1]);
    }
  }

  /**
   * Loading and refreshing leaves the table as it is, even when entries come back in another form;
   * what was added after the load is all that the refresh can insert.
   */
  lemma LoadThenRefresh<M(!new), R, K>(sc: Scheme<M, R, K>, decode: R -> Reading<M>, back: M -> Option<M>,
                                       rows: seq<R>, later: seq<M>)
    requires ReadsBack(sc, decode, back) && BackKeeps(sc, back)
    requires AllWritten(sc, rows) && LoadAll(decode, rows).Some?
    ensures Refreshed(sc, rows, LoadAll(decode, rows).value) == rows
    ensures Refreshed(sc, rows, LoadAll(decode, rows).value + later) == Refreshed(sc, rows, later)
  {
    LoadedKeys(sc, decode, back, rows);
    RefreshKnownPrefix(sc, rows, LoadAll(decode, rows).value, later);
  }

  /** n restarts in a row: load everything, refresh, stop. None is a node that could not start. */
  function Restarted<M, R, K(==)>(sc: Scheme<M, R, K>, decode: R -> Reading<M>, rows: seq<R>, n: nat)
    : Option<seq<R>>
  {
    if n == 0 then Some(rows) else
    match Restarted(sc, decode, rows, n - 1)
    case None => None
    case Some(before) =>
      match LoadAll(decode, before)
      case Some(entries) => Some(Refreshed(sc, before, entries))
      case None => None
  }

  /** Restarts leave the table alone, so each of them loads the same entries. */
  lemma {:induction false} RestartsAreIdle<M(!new), R, K>(sc: Scheme<M, R, K>, decode: R -> Reading<M>,
                                                          back: M -> Option<M>, rows: seq<R>, n: nat)
    requires ReadsBack(sc, decode, back) && BackKeeps(sc, back)
    requires AllWritten(sc, rows) && LoadAll(decode, rows).Some?
    ensures Restarted(sc, decode, rows, n) == Some(rows)
  {
    if n > 0 {
      RestartsAreIdle(sc, decode, back, rows, n - 1);
      LoadThenRefresh(sc, decode, back, rows, []);
    }
  }

  /** The table itself, with its transaction and its scan. */
  class Table<M, R, K(==)> {
    const sc: Scheme<M, R, K>
    const decode: R -> Reading<M>
    var rows: seq<R>

    constructor (sc: Scheme<M, R, K>, decode: R -> Reading<M>)
      ensures this.sc == sc && this.decode == decode && rows == []
    {
      this.sc := sc;
      this.decode := decode;
      rows := [];
    }

    /** One transaction: commits with every entry of the snapshot, or rolls back with none. */
    method Refresh(entries: seq<M>) returns (ok: bool)
      modifies this
      ensures ok <==> AcceptsAll(sc, entries)
      ensures rows == Refreshed(sc, old(rows), entries)
    {
      var tx := rows;
      for i := 0 to |entries|
        invariant AcceptsAll(sc, entries[..i])
        invariant tx == InsertAll(sc, rows, Encoded(sc, entries[..i]))
        invariant rows == old(rows)
      {
        if !sc.accepts(entries[i]) {
          return false;
        }
        assert Encoded(sc, entries[..i + 1])[..i] == Encoded(sc, entries[..i]);
        tx := InsertOrIgnore(sc, tx, sc.encode(entries[i]));
      }
      assert entries[..|entries|] == entries;
      rows := tx;
      ok := true;
    }

    /** Reads the rows in order; None is the load that stops the node. */
    method Load() returns (entries: Option<seq<M>>)
      ensures entries == LoadAll(decode, rows)
    {
      var read: seq<M> := [];
      for i := 0 to |rows|
        invariant LoadAll(decode, rows[..i]) == Some(read)
      {
        assert rows[..i + 1][..i] == rows[..i];
        match decode(rows[i]) {
          case Loaded(m) => read := read + [m];
          case Skipped =>
          case Aborted =>
            LoadFails(decode, rows);
            return None;
        }
      }
      assert rows[..|rows|] == rows;
      return Some(read);
    }
  }
}
