/**
 * The hub's log between memory and database: messages are pushed at the end, the front is drained
 * now and then, and a refresh takes a snapshot that reaches the table later, in one transaction.
 */
module HubLog {
  import opened Types
  import opened InsertIgnore

  const TRIM_ABOVE := 10_000
  const TRIM_COUNT := 1_000
  /** The entries a trim is certain to leave behind. */
  const KEPT_BY_TRIM := TRIM_ABOVE + 1 - TRIM_COUNT

  /** The positions, in the order of pushing, that an unfinished refresh has copied. */
  datatype Span = Span(from: nat, to: nat)

  /**
   * The history of a hub: everything ever pushed (the load at start-up included), how much of it was
   * drained, the refresh under way, the end of the last snapshot that committed, and the table.
   */
  datatype Hub<M, R> = Hub(all: seq<M>, drained: nat, refresh: Option<Span>, committed: nat, rows: seq<R>) {

    ghost predicate WellFormed() {
      && drained <= |all| && committed <= |all|
      && (refresh.Some? ==> refresh.value.from <= refresh.value.to <= |all|)
    }

    ghost function Memory(): seq<M>
      requires WellFormed()
    {
      all[drained..]
    }

    /** What the table would miss if the memory were lost now. */
    ghost function Uncommitted(): int { |all| - committed }
  }

  datatype Event<M> = Push(m: M) | Trim | Snapshot | Finish

  ghost function Step<M, R, K>(sc: Scheme<M, R, K>, h: Hub<M, R>, e: Event<M>): (next: Hub<M, R>)
    requires h.WellFormed()
    ensures next.WellFormed()
  {
    match e
    case Push(m) => h.(all := h.all + [m])
    case Trim => if |h.all| - h.drained > TRIM_ABOVE then h.(drained := h.drained + TRIM_COUNT) else h
    case Snapshot => if h.refresh.None? then h.(refresh := Some(Span(h.drained, |h.all|))) else h
    case Finish =>
      match h.refresh
      case None => h
      case Some(span) =>
        var snapshot := h.all[span.from..span.to];
        h.(refresh := None,
           rows := Refreshed(sc, h.rows, snapshot),
           committed := if AcceptsAll(sc, snapshot) then span.to else h.committed)
  }

  ghost function Run<M, R, K>(sc: Scheme<M, R, K>, h: Hub<M, R>, es: seq<Event<M>>): (end: Hub<M, R>)
    requires h.WellFormed()
    ensures end.WellFormed()
  {
    if es == [] then h else Step(sc, Run(sc, h, es[..|es| - 1]), es[|es| - 1])
  }

  // ---------- durability ----------

  /** Everything ever pushed is still in memory or has its key in the table. */
  ghost predicate Durable<M, R, K>(sc: Scheme<M, R, K>, h: Hub<M, R>) {
    forall i :: 0 <= i < |h.all| && i < h.drained ==> Recorded(sc, h.rows, h.all[i])
  }

  /** Nothing is drained that was not committed, and what was committed is in the table. */
  ghost predicate Safe<M, R, K>(sc: Scheme<M, R, K>, h: Hub<M, R>) {
    && h.WellFormed()
    && h.drained <= h.committed
    && (h.refresh.Some? ==> h.refresh.value.from <= h.committed <= h.refresh.value.to)
    && forall i :: 0 <= i < h.committed ==> Recorded(sc, h.rows, h.all[i])
  }

  /** Should this event be a trim that drains, what it drains was committed. */
  ghost predicate Spares<M, R>(h: Hub<M, R>, e: Event<M>)
    requires h.WellFormed()
  {
    e.Trim? && |h.Memory()| > 10_000 ==> h.Uncommitted() <= |h.Memory()| - 1000
  }

  lemma StepKeepsSafe<M, R, K>(sc: Scheme<M, R, K>, h: Hub<M, R>, e: Event<M>)
    requires Safe(sc, h) && Spares(h, e)
    ensures Safe(sc, Step(sc, h, e)) && Durable(sc, Step(sc, h, e))
  {
    var next := Step(sc, h, e);
    if e.Finish? && h.refresh.Some? {
      var span := h.refresh.value;
      var snapshot := h.all[span.from..span.to];
      forall i | 0 <= i < next.committed ensures Recorded(sc, next.rows, next.all[i]) {
        RefreshKeepsRecords(sc, h.rows, snapshot, h.all[i]);
        if i >= h.committed {
          assert snapshot[i - span.from] == h.all[i];
        }
      }
    }
  }

  /** The messages not yet committed have keys of their own, and none of these is in the table. */
  ghost predicate Apart<M, R, K>(sc: Scheme<M, R, K>, h: Hub<M, R>) {
    && (forall i :: 0 <= i < |h.all| && h.committed <= i ==> !Recorded(sc, h.rows, h.all[i]))
    && (forall i, j :: 0 <= i < j < |h.all| && h.committed <= i ==>
          sc.key(sc.encode(h.all[i])) != sc.key(sc.encode(h.all[j])))
  }

  /** A message that is pushed has a key that is neither in the table nor waits to get there. */
  ghost predicate BringsNewKey<M, R, K>(sc: Scheme<M, R, K>, h: Hub<M, R>, e: Event<M>) {
    e.Push? ==>
      && !Recorded(sc, h.rows, e.m)
      && forall i :: 0 <= i < |h.all| && h.committed <= i ==> sc.key(sc.encode(h.all[i])) != sc.key(sc.encode(e.m))
  }

  lemma CommitKeepsApart<M, R, K>(sc: Scheme<M, R, K>, h: Hub<M, R>, i: nat)
    requires Safe(sc, h) && Apart(sc, h) && h.refresh.Some?
    requires h.refresh.value.to <= i < |h.all|
    ensures !Recorded(sc, Refreshed(sc, h.rows, h.all[h.refresh.value.from..h.refresh.value.to]), h.all[i])
  {
    var span := h.refresh.value;
    var snapshot := h.all[span.from..span.to];
    var more, key := Encoded(sc, snapshot), sc.key(sc.encode(h.all[i]));
    InsertAllKeys(sc, h.rows, more, key);
    forall k | 0 <= k < |more| ensures sc.key(more[k]) != key {
      var j := span.from + k;
      assert more[k] == sc.encode(h.all[j]);
      if j < h.committed {
        assert Recorded(sc, h.rows, h.all[j]) && !Recorded(sc, h.rows, h.all[i]);
      }
    }
  }

  lemma StepKeepsApart<M, R, K>(sc: Scheme<M, R, K>, h: Hub<M, R>, e: Event<M>)
    requires Safe(sc, h) && Apart(sc, h) && BringsNewKey(sc, h, e)
    ensures Apart(sc, Step(sc, h, e))
  {
    if e.Finish? && h.refresh.Some? {
      forall i | h.refresh.value.to <= i < |h.all|
        ensures !Recorded(sc, Refreshed(sc, h.rows, h.all[h.refresh.value.from..h.refresh.value.to]), h.all[i])
      {
        CommitKeepsApart(sc, h, i);
      }
    }
  }

  /** A step loses a message exactly when it is a trim that drains one not yet committed. */
  lemma StepLosesIff<M, R, K>(sc: Scheme<M, R, K>, h: Hub<M, R>, e: Event<M>)
    requires Safe(sc, h) && Apart(sc, h)
    ensures Durable(sc, Step(sc, h, e)) <==> Spares(h, e)
  {
    if Spares(h, e) {
      StepKeepsSafe(sc, h, e);
    } else {
      assert !Recorded(sc, h.rows, h.all[h.committed]) && h.committed < h.drained + TRIM_COUNT;
    }
  }

  /** At every event of the run. */
  ghost predicate AlwaysSpares<M, R, K>(sc: Scheme<M, R, K>, h: Hub<M, R>, es: seq<Event<M>>)
    requires h.WellFormed()
  {
    es == [] || (AlwaysSpares(sc, h, es[..|es| - 1]) && Spares(Run(sc, h, es[..|es| - 1]), es[|es| - 1]))
  }

  ghost predicate AlwaysNewKeys<M, R, K>(sc: Scheme<M, R, K>, h: Hub<M, R>, es: seq<Event<M>>)
    requires h.WellFormed()
  {
    es == [] || (AlwaysNewKeys(sc, h, es[..|es| - 1]) && BringsNewKey(sc, Run(sc, h, es[..|es| - 1]), es[|es| - 1]))
  }

  /** In every state of the run, the first and the last included. */
  ghost predicate AlwaysDurable<M, R, K>(sc: Scheme<M, R, K>, h: Hub<M, R>, es: seq<Event<M>>)
    requires h.WellFormed()
  {
    Durable(sc, Run(sc, h, es)) && (es == [] || AlwaysDurable(sc, h, es[..|es| - 1]))
  }

  /**
   * Pushes, trims, snapshots and commits in any order: when no trim drains more than was committed, no
   * message is ever lost, whatever the keys.
   */
  lemma {:induction false} SparingKeepsSafe<M, R, K>(sc: Scheme<M, R, K>, h: Hub<M, R>, es: seq<Event<M>>)
    requires Safe(sc, h) && AlwaysSpares(sc, h, es)
    ensures Safe(sc, Run(sc, h, es)) && AlwaysDurable(sc, h, es)
  {
    if es != [] {
      SparingKeepsSafe(sc, h, es[..|es| - 1]);
      StepKeepsSafe(sc, Run(sc, h, es[..|es| - 1]), es[|es| - 1]);
    }
  }

  lemma {:induction false} SparingKeepsApart<M, R, K>(sc: Scheme<M, R, K>, h: Hub<M, R>, es: seq<Event<M>>)
    requires Safe(sc, h) && Apart(sc, h) && AlwaysSpares(sc, h, es) && AlwaysNewKeys(sc, h, es)
    ensures Apart(sc, Run(sc, h, es))
  {
    if es != [] {
      SparingKeepsApart(sc, h, es[..|es| - 1]);
      SparingKeepsSafe(sc, h, es[..|es| - 1]);
      StepKeepsApart(sc, Run(sc, h, es[..|es| - 1]), es[|es| - 1]);
    }
  }

  /**
   * When every message pushed has a new key, every message is at all times in memory or in the table if
   * and only if each trim that drains finds at least 1000 committed messages in memory.
   */
  lemma {:induction false} NothingIsLostIff<M, R, K>(sc: Scheme<M, R, K>, h: Hub<M, R>, es: seq<Event<M>>)
    requires Safe(sc, h) && Apart(sc, h) && AlwaysNewKeys(sc, h, es)
    ensures AlwaysDurable(sc, h, es) <==> AlwaysSpares(sc, h, es)
  {
    if es != [] {
      var init := es[..|es| - 1];
      NothingIsLostIff(sc, h, init);
      if AlwaysSpares(sc, h, init) {
        SparingKeepsSafe(sc, h, init);
        SparingKeepsApart(sc, h, init);
        StepLosesIff(sc, Run(sc, h, init), es[|es| - 1]);
      }
    }
  }

  /**
   * The durability bound, for any keys: if no trim finds more than 9001 messages pushed since the last
   * snapshot that committed, nothing is ever lost.
   */
  lemma {:induction false} NothingIsLost<M, R, K>(sc: Scheme<M, R, K>, h: Hub<M, R>, es: seq<Event<M>>)
    requires Safe(sc, h)
    requires forall k :: 0 <= k < |es| && es[k].Trim? ==> Run(sc, h, es[..k]).Uncommitted() <= 9001
    ensures Safe(sc, Run(sc, h, es)) && AlwaysDurable(sc, h, es)
    ensures AlwaysSpares(sc, h, es)
  {
    if es != [] {
      var init := es[..|es| - 1];
      forall k | 0 <= k < |init| && init[k].Trim? ensures Run(sc, h, init[..k]).Uncommitted() <= KEPT_BY_TRIM {
        assert init[..k] == es[..k];
      }
      NothingIsLost(sc, h, init);
      SparingKeepsSafe(sc, h, es);
    }
  }

  /** A hub is safe when it starts: what it loads is what the table holds. */
  lemma StartIsSafe<M(!new), R, K>(sc: Scheme<M, R, K>, decode: R -> Reading<M>, back: M -> Option<M>, rows: seq<R>)
    requires ReadsBack(sc, decode, back) && BackKeeps(sc, back)
    requires AllWritten(sc, rows) && LoadAll(decode, rows).Some?
    ensures var loaded := LoadAll(decode, rows).value;
            Safe(sc, Hub(loaded, 0, None, |loaded|, rows)) && Apart(sc, Hub(loaded, 0, None, |loaded|, rows))
  {
    LoadedKeys(sc, decode, back, rows);
  }

  function Pushes<M>(ms: seq<M>): seq<Event<M>> { seq(|ms|, i requires 0 <= i < |ms| => Push(ms[i])) }

  lemma {:induction false} RunPushes<M, R, K>(sc: Scheme<M, R, K>, h: Hub<M, R>, ms: seq<M>)
    requires h.WellFormed()
    ensures Run(sc, h, Pushes(ms)) == h.(all := h.all + ms)
  {
    if ms == [] {
      assert h.all + ms == h.all;
    } else {
      var init := ms[..|ms| - 1];
      assert Pushes(ms)[..|ms| - 1] == Pushes(init);
      RunPushes(sc, h, init);
      assert h.all + ms == h.all + init + [ms[|ms| - 1]];
    }
  }

  /** One message more than the bound, and a hub that started with 999 in its log loses one. */
  lemma BoundIsTight<M, R, K>(sc: Scheme<M, R, K>, loaded: seq<M>, rows: seq<R>, pushed: seq<M>)
    requires |loaded| == 999 && |pushed| == 9002
    requires forall m <- loaded :: Recorded(sc, rows, m)
    requires !Recorded(sc, rows, pushed[0])
    ensures
      var start := Hub(loaded, 0, None, |loaded|, rows);
      && Safe(sc, start)
      && Run(sc, start, Pushes(pushed)).Uncommitted() == 9002
      && !Durable(sc, Run(sc, start, Pushes(pushed) + [Trim]))
  {
    var start := Hub(loaded, 0, None, |loaded|, rows);
    RunPushes(sc, start, pushed);
    var es := Pushes(pushed) + [Trim];
    assert es[..|es| - 1] == Pushes(pushed);
    var end := Run(sc, start, es);
    assert end.all[TRIM_COUNT - 1] == pushed[0];
  }

  // ---------- what a refresh writes ----------

  function PushCount<M>(es: seq<Event<M>>): nat {
    if es == [] then 0 else PushCount(es[..|es| - 1]) + (if es[|es| - 1].Push? then 1 else 0)
  }

  /** While a refresh is under way its snapshot stays what it was, whatever is pushed and drained. */
  lemma {:induction false} SnapshotStays<M, R, K>(sc: Scheme<M, R, K>, h: Hub<M, R>, es: seq<Event<M>>)
    requires h.WellFormed() && h.refresh.Some? && forall k :: 0 <= k < |es| ==> !es[k].Finish?
    ensures var end := Run(sc, h, es);
            && end.refresh == h.refresh && end.rows == h.rows && end.committed == h.committed
            && h.all <= end.all && |end.all| == |h.all| + PushCount(es)
  {
    if es != [] {
      SnapshotStays(sc, h, es[..|es| - 1]);
    }
  }

  /** From a snapshot to the end of the refresh, which writes it, whatever happens in between. */
  ghost function AfterRefresh<M, R, K>(sc: Scheme<M, R, K>, h: Hub<M, R>, es: seq<Event<M>>): Hub<M, R>
    requires h.WellFormed()
  {
    Step(sc, Run(sc, Step(sc, h, Snapshot), es), Finish)
  }

  /**
   * A refresh writes what was in memory when it began: everything, if every message can be stored, and
   * then only what was pushed since is uncommitted; nothing, if one cannot.
   */
  lemma RefreshWritesSnapshot<M, R, K>(sc: Scheme<M, R, K>, h: Hub<M, R>, es: seq<Event<M>>)
    requires h.WellFormed() && h.refresh.None? && forall k :: 0 <= k < |es| ==> !es[k].Finish?
    ensures var end := AfterRefresh(sc, h, es);
            && end.refresh.None?
            && (AcceptsAll(sc, h.Memory()) ==>
                  && (forall m <- h.Memory() :: Recorded(sc, end.rows, m))
                  && (forall key :: HasKey(sc, end.rows, key) ==>
                        HasKey(sc, h.rows, key) || exists m <- h.Memory() :: sc.key(sc.encode(m)) == key)
                  && end.Uncommitted() == PushCount(es))
            && (!AcceptsAll(sc, h.Memory()) ==> end.rows == h.rows && end.committed == h.committed)
  {
    var begun := Step(sc, h, Snapshot);
    SnapshotStays(sc, begun, es);
    var before := Run(sc, begun, es);
    var snapshot := before.all[h.drained..|h.all|];
    assert snapshot == h.Memory();
    if AcceptsAll(sc, snapshot) {
      forall m | m in snapshot ensures Recorded(sc, Refreshed(sc, h.rows, snapshot), m) {
        RefreshKeepsRecords(sc, h.rows, snapshot, m);
      }
      forall key | HasKey(sc, Refreshed(sc, h.rows, snapshot), key)
        ensures HasKey(sc, h.rows, key) || exists m <- snapshot :: sc.key(sc.encode(m)) == key
      {
        InsertAllKeys(sc, h.rows, Encoded(sc, snapshot), key);
        if i :| 0 <= i < |snapshot| && sc.key(Encoded(sc, snapshot)[i]) == key {
          assert snapshot[i] in snapshot;
        }
      }
    }
  }

  // ---------- the size of the log in memory ----------

  function SinceTrim<M>(es: seq<Event<M>>): nat {
    if es == [] || es[|es| - 1].Trim? then 0
    else SinceTrim(es[..|es| - 1]) + (if es[|es| - 1].Push? then 1 else 0)
  }

  function Trims<M>(es: seq<Event<M>>): nat {
    if es == [] then 0 else Trims(es[..|es| - 1]) + (if es[|es| - 1].Trim? then 1 else 0)
  }

  /** At most n pushes between one trim and the next. */
  ghost predicate Paced<M>(es: seq<Event<M>>, n: nat) {
    forall k :: 0 <= k <= |es| ==> SinceTrim(es[..k]) <= n
  }

  lemma PacedInit<M>(es: seq<Event<M>>, n: nat)
    requires es != [] && Paced(es, n)
    ensures Paced(es[..|es| - 1], n) && SinceTrim(es) <= n
  {
    var init := es[..|es| - 1];
    forall k | 0 <= k <= |init| ensures SinceTrim(init[..k]) <= n {
      assert init[..k] == es[..k];
    }
    assert es[..|es|] == es;
  }

  function Max(a: int, b: int): int { if a < b then b else a }

  /** The length in memory, for any pace: what was there, the pushes, and what the trims took. */
  lemma {:induction false} MemoryBound<M, R, K>(sc: Scheme<M, R, K>, h: Hub<M, R>, es: seq<Event<M>>, n: nat)
    requires h.WellFormed() && Paced(es, n) && n <= TRIM_COUNT
    ensures |Run(sc, h, es).Memory()|
         <= Max(TRIM_ABOVE, |h.Memory()| - Trims(es) * (TRIM_COUNT - n)) + SinceTrim(es)
  {
    if es != [] {
      PacedInit(es, n);
      MemoryBound(sc, h, es[..|es| - 1], n);
      if es[|es| - 1].Trim? {
        TrimArithmetic(|h.Memory()|, Trims(es[..|es| - 1]), n);
      }
    }
  }

  lemma TrimArithmetic(length: nat, trims: nat, n: nat)
    requires n <= TRIM_COUNT
    ensures length - (trims + 1) * (TRIM_COUNT - n) == length - trims * (TRIM_COUNT - n) - TRIM_COUNT + n
  {
    assert (trims + 1) * (TRIM_COUNT - n) == trims * (TRIM_COUNT - n) + (TRIM_COUNT - n);
  }

  /** From 10000 messages or fewer, at 1000 pushes between trims, the log never exceeds 11000. */
  lemma MemoryNeverExceeds<M, R, K>(sc: Scheme<M, R, K>, h: Hub<M, R>, es: seq<Event<M>>)
    requires h.WellFormed() && |h.Memory()| <= 10_000 && Paced(es, 1000)
    ensures |Run(sc, h, es).Memory()| <= 11_000
  {
    MemoryBound(sc, h, es, TRIM_COUNT);
    assert es[..|es|] == es;
  }

  /** From any length, at 999 pushes between trims, the excess over 10000 is gone after as many trims. */
  lemma MemorySettles<M, R, K>(sc: Scheme<M, R, K>, h: Hub<M, R>, es: seq<Event<M>>)
    requires h.WellFormed() && Paced(es, 999)
    requires es != [] && es[|es| - 1].Trim? && Trims(es) >= |h.Memory()| - 10_000
    ensures |Run(sc, h, es).Memory()| <= 10_000
  {
    MemoryBound(sc, h, es, TRIM_COUNT - 1);
  }

  // ---------- the hub's own fields ----------

  class HubLogs<M, R, K(==)> {
    const table: Table<M, R, K>
    var logs: seq<M>
    var snapshot: Option<seq<M>>
    ghost var history: Hub<M, R>

    ghost predicate Valid()
      reads this, table
    {
      && history.WellFormed()
      && logs == history.Memory()
      && table.rows == history.rows
      && snapshot == (match history.refresh
                      case Some(span) => Some(history.all[span.from..span.to])
                      case None => None)
    }

    /** Start-up: the log is what the table's rows were read back as. */
    constructor (table: Table<M, R, K>, loaded: seq<M>)
      ensures Valid() && this.table == table
      ensures history == Hub(loaded, 0, None, |loaded|, table.rows)
    {
      this.table := table;
      logs := loaded;
      snapshot := None;
      history := Hub(loaded, 0, None, |loaded|, table.rows);
    }

    method Push(m: M)
      requires Valid()
      modifies this
      ensures Valid() && history == Step(table.sc, old(history), Event.Push(m))
      ensures logs == old(logs) + [m] && snapshot == old(snapshot)
    {
      logs := logs + [m];
      if history.refresh.Some? {
        var span := history.refresh.value;
        assert (history.all + [m])[span.from..span.to] == history.all[span.from..span.to];
      }
      history := Step(table.sc, history, Event.Push(m));
    }

    method Trim()
      requires Valid()
      modifies this
      ensures Valid() && history == Step(table.sc, old(history), Event.Trim)
      ensures logs == (if |old(logs)| > 10_000 then old(logs)[1000..] else old(logs)) && snapshot == old(snapshot)
    {
      if |logs| > TRIM_ABOVE {
        logs := logs[TRIM_COUNT..];
      }
      history := Step(table.sc, history, Event.Trim);
    }

    method TakeSnapshot()
      requires Valid()
      modifies this
      ensures Valid() && history == Step(table.sc, old(history), Event.Snapshot)
      ensures logs == old(logs) && snapshot == if old(snapshot).None? then Some(logs) else old(snapshot)
    {
      if snapshot.None? {
        snapshot := Some(logs);
        assert logs == history.all[history.drained..|history.all|];
      }
      history := Step(table.sc, history, Event.Snapshot);
    }

    method FinishRefresh()
      requires Valid()
      modifies this, table
      ensures Valid() && history == Step(table.sc, old(history), Event.Finish)
      ensures logs == old(logs) && snapshot == None
      ensures old(snapshot).Some? && AcceptsAll(table.sc, old(snapshot).value) ==>
                forall m <- old(snapshot).value :: Recorded(table.sc, table.rows, m)
    {
      if snapshot.Some? {
        var _ := table.Refresh(snapshot.value);
        forall m | m in snapshot.value && AcceptsAll(table.sc, snapshot.value) ensures Recorded(table.sc, table.rows, m) {
          RefreshKeepsRecords(table.sc, old(table.rows), snapshot.value, m);
        }
        snapshot := None;
      }
      history := Step(table.sc, history, Event.Finish);
    }
  }
}
