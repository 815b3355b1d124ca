/** Which peers a node keeps, through pruning, saving and restarting. */
module PeersStay {
  import opened Types
  import opened Peers

  /** A save that commits keeps the row of this peer, or inserts it. */
  predicate SaveKeeps(f: Format, n: Node, id: PeerId) {
    id !in n.rows || n.rows[id].addr in LiveAddrs(f, n.peers)
  }

  /** After a save and a restart a peer is still there exactly when its row was not under a stale address. */
  lemma RestartKeepsIff(f: Format, hash: Key -> PeerId, n: Node, id: PeerId)
    requires Sound(f, hash, n) && id in n.peers
    ensures var after := Run(f, hash, n, [Save, Reload]);
            && (id in after.peers <==> if Storable(n.peers) then SaveKeeps(f, n, id) else id in n.rows)
            && (id in after.peers && Storable(n.peers) ==> after.peers[id].lastSeen == n.peers[id].lastSeen)
            && (id in after.peers ==>
                  Some(after.peers[id].addr)
                  == if id in n.rows then f.parseAddr(n.rows[id].addr) else Some(n.peers[id].addr))
  {
    RunTwo(f, hash, n, Save, Reload);
    if Storable(n.peers) {
      RefreshedRow(f, n.rows, n.peers, id);
    }
  }

  lemma RunTwo(f: Format, hash: Key -> PeerId, n: Node, a: Event, b: Event)
    requires Sound(f, hash, n)
    ensures Sound(f, hash, Step(f, hash, n, a))
    ensures Run(f, hash, n, [a, b]) == Step(f, hash, Step(f, hash, n, a), b)
  {
    StepKeepsSound(f, hash, n, a);
    assert [a][..|[a]| - 1] == [] && [a, b][..|[a, b]| - 1] == [a];
    assert Run(f, hash, n, [a]) == Step(f, hash, n, a);
  }

  /** A peer of a state, to be followed through runs from there. */
  datatype Watch = Watch(f: Format, hash: Key -> PeerId, start: Node, id: PeerId) {

    ghost predicate Valid() { Sound(f, hash, start) && id in start.peers }

    ghost function After(es: seq<Event>): Node
      requires Valid()
    {
      Run(f, hash, start, es)
    }

    /** The peer is in memory at all times. */
    ghost predicate Stays(es: seq<Event>)
      requires Valid()
    {
      forall k :: 0 <= k <= |es| ==> id in After(es[..k]).peers
    }

    /** Event s is a save that commits. */
    ghost predicate SavesAt(es: seq<Event>, s: int)
      requires Valid()
    {
      0 <= s < |es| && es[s].Save? && Storable(After(es[..s]).peers)
    }

    ghost predicate Saved(es: seq<Event>, i: int)
      requires Valid() && i >= -1
    {
      exists s :: i < s < |es| && SavesAt(es, s)
    }

    /** No restart undid event i: every later one comes after a save later than i. */
    ghost predicate Remembered(es: seq<Event>, i: int)
      requires Valid() && i >= -1
    {
      forall r :: i < r < |es| && es[r].Reload? ==> Saved(es[..r], i)
    }

    ghost predicate RegistersAt(es: seq<Event>, i: int) {
      0 <= i < |es| && es[i].Register? && hash(es[i].key) == id
    }

    /**
     * What may tell a node when the peer was last seen: a registration that no restart undid; as number
     * -1 what memory said at the start, if no restart undid that; else, as -2, what the table said.
     */
    ghost predicate Sighting(es: seq<Event>, i: int)
      requires Valid()
    {
      if i == -2 then id in start.rows && !Remembered(es, -1)
      else (i == -1 || RegistersAt(es, i)) && Remembered(es, i)
    }

    /** The same if there was a restart now. */
    ghost predicate SightingOnFile(es: seq<Event>, i: int)
      requires Valid()
    {
      if i == -2 then id in start.rows && !(Remembered(es, -1) && Saved(es, -1))
      else (i == -1 || RegistersAt(es, i)) && Remembered(es, i) && Saved(es, i)
    }

    ghost function SeenAt(es: seq<Event>, i: int): U64
      requires Valid() && (Sighting(es, i) || SightingOnFile(es, i))
    {
      if i == -2 then start.rows[id].lastSeen
      else if i == -1 then start.peers[id].lastSeen
      else After(es[..i]).now
    }

    /** Whenever the node prunes, there is a sighting less than 120 seconds old. */
    ghost predicate HeardInTime(es: seq<Event>)
      requires Valid()
    {
      forall k :: 0 <= k < |es| && es[k].Prune? ==>
        exists i :: Sighting(es[..k], i) && After(es[..k]).now - SeenAt(es[..k], i) < 120
    }

    /** The last save that committed kept the row; if none did, the row was there from the start. */
    ghost predicate RowKept(es: seq<Event>)
      requires Valid()
    {
      if es == [] then id in start.rows
      else if SavesAt(es, |es| - 1) then SaveKeeps(f, After(es[..|es| - 1]), id)
      else RowKept(es[..|es| - 1])
    }

    ghost predicate RestartsFindRow(es: seq<Event>)
      requires Valid()
    {
      forall k :: 0 <= k < |es| && es[k].Reload? ==> RowKept(es[..k])
    }

    /** The address is the one at the start or, after a restart, the one stored at the start. */
    ghost predicate KnownAddr(a: Option<Addr>, restarted: bool)
      requires Valid()
    {
      || a == Some(start.peers[id].addr)
      || (restarted && id in start.rows && a == f.parseAddr(start.rows[id].addr))
    }

    ghost predicate LastSighting(es: seq<Event>, t: U64)
      requires Valid()
    {
      && (exists i :: Sighting(es, i) && SeenAt(es, i) == t)
      && (forall i :: Sighting(es, i) ==> SeenAt(es, i) <= t)
    }

    ghost predicate LastOnFile(es: seq<Event>, t: U64)
      requires Valid()
    {
      && (exists i :: SightingOnFile(es, i) && SeenAt(es, i) == t)
      && (forall i :: SightingOnFile(es, i) ==> SeenAt(es, i) <= t)
    }
  }

  lemma OneMoreSave(w: Watch, es: seq<Event>, i: int)
    requires w.Valid() && es != [] && -1 <= i < |es| - 1
    ensures w.Saved(es, i) <==> w.Saved(es[..|es| - 1], i) || w.SavesAt(es, |es| - 1)
  {
    var init := es[..|es| - 1];
    forall s | 0 <= s < |init| ensures w.SavesAt(es, s) <==> w.SavesAt(init, s) {
      assert init[..s] == es[..s];
    }
  }

  /** What one more event does to saves and restarts after event i. */
  lemma OneMoreEvent(w: Watch, es: seq<Event>, i: int)
    requires w.Valid() && es != [] && -1 <= i < |es| - 1
    ensures var init := es[..|es| - 1];
            && (w.Saved(es, i) <==> w.Saved(init, i) || w.SavesAt(es, |es| - 1))
            && (w.Remembered(es, i)
                <==> w.Remembered(init, i) && (es[|es| - 1].Reload? ==> w.Saved(init, i)))
  {
    OneMoreSave(w, es, i);
    var init := es[..|es| - 1];
    forall r | 0 <= r < |init| ensures es[..r] == init[..r] {}
    if w.Remembered(es, i) {
      forall r | i < r < |init| && init[r].Reload? ensures w.Saved(init[..r], i) {
        assert es[r].Reload? && w.Saved(es[..r], i);
      }
    }
    if w.Remembered(init, i) {
      forall r | i < r < |init| && es[r].Reload? ensures w.Saved(es[..r], i) {
        assert init[r].Reload? && w.Saved(init[..r], i);
      }
    }
  }

  /** How the last event changes the sightings. */
  lemma SightingsStep(w: Watch, es: seq<Event>, i: int)
    requires w.Valid() && es != []
    ensures var init, last := es[..|es| - 1], es[|es| - 1];
            && (w.Sighting(es, i)
                <==> || (if last.Reload? then w.SightingOnFile(init, i) else w.Sighting(init, i))
                     || (i == |init| && w.RegistersAt(es, i)))
            && (w.SightingOnFile(es, i)
                <==> if w.SavesAt(es, |init|) then w.Sighting(init, i) else w.SightingOnFile(init, i))
            && (w.Sighting(init, i) || w.SightingOnFile(init, i) ==>
                  (w.Sighting(es, i) || w.SightingOnFile(es, i) ==> w.SeenAt(es, i) == w.SeenAt(init, i)))
  {
    var init := es[..|es| - 1];
    OneMoreEvent(w, es, -1);
    if 0 <= i < |init| {
      OneMoreEvent(w, es, i);
      assert es[..i] == init[..i];
    }
  }

  lemma StaysStep(w: Watch, es: seq<Event>)
    requires w.Valid() && es != []
    ensures w.Stays(es) <==> w.Stays(es[..|es| - 1]) && w.id in w.After(es).peers
  {
    var init := es[..|es| - 1];
    assert es[..|es|] == es;
    forall k | 0 <= k <= |init| ensures init[..k] == es[..k] {}
    if w.Stays(es) {
      forall k | 0 <= k <= |init| ensures w.id in w.After(init[..k]).peers {
        assert w.id in w.After(es[..k]).peers;
      }
      assert w.id in w.After(es[..|es|]).peers;
    }
    if w.Stays(init) && w.id in w.After(es).peers {
      forall k | 0 <= k <= |es| ensures w.id in w.After(es[..k]).peers {
        if k < |es| {
          assert w.id in w.After(init[..k]).peers;
        }
      }
    }
  }

  /** Memory and table say when the peer was last seen, as far as restarts let them. */
  ghost predicate Tracked(w: Watch, es: seq<Event>)
    requires w.Valid()
  {
    var n := w.After(es);
    && w.id in n.peers && w.LastSighting(es, n.peers[w.id].lastSeen)
    && (w.id in n.rows <==> w.RowKept(es))
    && (w.id in n.rows ==> w.LastOnFile(es, n.rows[w.id].lastSeen))
  }

  lemma StartIsTracked(w: Watch)
    requires w.Valid()
    ensures Tracked(w, [])
  {
    assert w.Sighting([], -1) && forall i :: w.Sighting([], i) ==> i == -1;
    if w.id in w.start.rows {
      assert w.SightingOnFile([], -2) && forall i :: w.SightingOnFile([], i) ==> i == -2;
    }
  }

  lemma SaveTracks(w: Watch, es: seq<Event>)
    requires w.Valid() && es != [] && w.SavesAt(es, |es| - 1) && Tracked(w, es[..|es| - 1])
    ensures Tracked(w, es)
  {
    var init := es[..|es| - 1];
    var before, t := w.After(init), w.After(init).peers[w.id].lastSeen;
    RefreshedRow(w.f, before.rows, before.peers, w.id);
    forall i ensures w.Sighting(es, i) <==> w.Sighting(init, i)
             ensures w.SightingOnFile(es, i) <==> w.Sighting(init, i)
             ensures w.Sighting(init, i) ==> w.SeenAt(es, i) == w.SeenAt(init, i) {
      SightingsStep(w, es, i);
    }
    assert w.LastSighting(es, t) && w.LastOnFile(es, t);
  }

  lemma FileStaysTracked(w: Watch, es: seq<Event>, t: U64)
    requires w.Valid() && es != [] && !w.SavesAt(es, |es| - 1) && w.LastOnFile(es[..|es| - 1], t)
    ensures w.LastOnFile(es, t)
    ensures es[|es| - 1].Reload? ==> w.LastSighting(es, t)
  {
    var init := es[..|es| - 1];
    forall i ensures w.SightingOnFile(es, i) <==> w.SightingOnFile(init, i)
             ensures w.SightingOnFile(init, i) ==> w.SeenAt(es, i) == w.SeenAt(init, i)
             ensures es[|es| - 1].Reload? ==> (w.Sighting(es, i) <==> w.SightingOnFile(init, i)) {
      SightingsStep(w, es, i);
    }
  }

  lemma MemoryStaysTracked(w: Watch, es: seq<Event>, t: U64)
    requires w.Valid() && es != [] && !es[|es| - 1].Reload? && w.LastSighting(es[..|es| - 1], t)
    requires t <= w.After(es[..|es| - 1]).now
    ensures w.LastSighting(es, if w.RegistersAt(es, |es| - 1) then w.After(es[..|es| - 1]).now else t)
  {
    var init := es[..|es| - 1];
    forall i ensures w.Sighting(es, i) <==> w.Sighting(init, i) || (i == |init| && w.RegistersAt(es, i))
             ensures w.Sighting(init, i) ==> w.SeenAt(es, i) == w.SeenAt(init, i) {
      SightingsStep(w, es, i);
    }
    if w.RegistersAt(es, |init|) {
      assert w.Sighting(es, |init|) && w.SeenAt(es, |init|) == w.After(init).now;
    }
  }

  lemma StepOnPeer(f: Format, hash: Key -> PeerId, n: Node, e: Event, id: PeerId)
    requires Sound(f, hash, n) && id in n.peers && id in Step(f, hash, n, e).peers
    requires !(e.Save? && Storable(n.peers))
    ensures var after := Step(f, hash, n, e);
            && after.rows == n.rows && n.peers[id].lastSeen <= n.now
            && if e.Reload? then id in n.rows && after.peers[id].lastSeen == n.rows[id].lastSeen
               else after.peers[id]
                    == if e.Register? && hash(e.key) == id then n.peers[id].(lastSeen := n.now) else n.peers[id]
  {
  }

  lemma OtherTracks(w: Watch, es: seq<Event>)
    requires w.Valid() && es != [] && !w.SavesAt(es, |es| - 1) && Tracked(w, es[..|es| - 1])
    requires w.id in w.After(es).peers
    ensures Tracked(w, es)
  {
    var init := es[..|es| - 1];
    var before := w.After(init);
    StepOnPeer(w.f, w.hash, before, es[|init|], w.id);
    assert w.After(es) == Step(w.f, w.hash, before, es[|init|]);
    if w.id in before.rows {
      FileStaysTracked(w, es, before.rows[w.id].lastSeen);
    }
    if !es[|init|].Reload? {
      MemoryStaysTracked(w, es, before.peers[w.id].lastSeen);
    }
  }

  lemma {:induction false} StayingIsTracked(w: Watch, es: seq<Event>)
    requires w.Valid() && w.Stays(es)
    ensures Tracked(w, es)
  {
    if es == [] {
      StartIsTracked(w);
    } else {
      StaysStep(w, es);
      StayingIsTracked(w, es[..|es| - 1]);
      if w.SavesAt(es, |es| - 1) {
        SaveTracks(w, es);
      } else {
        OtherTracks(w, es);
      }
    }
  }

  lemma HeardStep(w: Watch, es: seq<Event>)
    requires w.Valid() && es != []
    ensures var init := es[..|es| - 1];
            && (w.HeardInTime(es)
                <==> && w.HeardInTime(init)
                     && (es[|init|].Prune? ==>
                           exists i :: w.Sighting(init, i) && w.After(init).now - w.SeenAt(init, i) < 120))
            && (w.RestartsFindRow(es) <==> w.RestartsFindRow(init) && (es[|init|].Reload? ==> w.RowKept(init)))
  {
    var init := es[..|es| - 1];
    forall k | 0 <= k <= |init| ensures es[..k] == init[..k] && (k < |init| ==> es[k] == init[k]) {}
    assert init[..|init|] == init;
  }

  predicate Restarted(es: seq<Event>) { exists r :: 0 <= r < |es| && es[r].Reload? }

  lemma {:induction false} StayingKeepsAddr(w: Watch, es: seq<Event>)
    requires w.Valid() && w.Stays(es)
    ensures var n := w.After(es);
            && w.id in n.peers && w.KnownAddr(Some(n.peers[w.id].addr), Restarted(es))
            && (w.id in n.rows ==> w.KnownAddr(w.f.parseAddr(n.rows[w.id].addr), true))
  {
    if es == [] {
      assert w.After(es[..0]) == w.start;
    } else {
      var init, last := es[..|es| - 1], es[|es| - 1];
      StaysStep(w, es);
      StayingKeepsAddr(w, init);
      if last.Reload? {
        assert es[|es| - 1].Reload?;
      } else if r :| 0 <= r < |init| && init[r].Reload? {
        assert es[r].Reload?;
      }
      if w.SavesAt(es, |init|) {
        RefreshedRow(w.f, w.After(init).rows, w.After(init).peers, w.id);
      } else {
        StepOnPeer(w.f, w.hash, w.After(init), last, w.id);
      }
    }
  }

  /**
   * A peer is never dropped, in any run with restarts, exactly when every prune has a sighting of it
   * less than 120 seconds old that no restart undid, and every restart finds its row. Memory then says
   * when the last of these sightings was, and the address it had at the start, or, after a restart, the
   * one it was stored under.
   */
  lemma {:induction false} RegularPeerStays(w: Watch, es: seq<Event>)
    requires w.Valid()
    ensures w.Stays(es) <==> w.HeardInTime(es) && w.RestartsFindRow(es)
    ensures w.Stays(es) ==> && w.id in w.After(es).peers
                            && w.LastSighting(es, w.After(es).peers[w.id].lastSeen)
                            && w.KnownAddr(Some(w.After(es).peers[w.id].addr), Restarted(es))
  {
    StaysIff(w, es);
    if w.Stays(es) {
      StayingIsTracked(w, es);
      StayingKeepsAddr(w, es);
    }
  }

  lemma {:induction false} StaysIff(w: Watch, es: seq<Event>)
    requires w.Valid()
    ensures w.Stays(es) <==> w.HeardInTime(es) && w.RestartsFindRow(es)
  {
    if es == [] {
      assert es[..0] == [];
    } else {
      var init := es[..|es| - 1];
      StaysIff(w, init);
      StaysStep(w, es);
      HeardStep(w, es);
      if w.Stays(init) {
        StayingIsTracked(w, init);
      }
    }
  }

  // ---------- a peer that is stored under its own address ----------

  predicate StoredAsItIs(f: Format, n: Node, id: PeerId) {
    id in n.peers && id in n.rows ==> n.rows[id].addr == f.showAddr(n.peers[id].addr)
  }

  /** Every restart comes after a save, or finds the row that was there at the start. */
  ghost predicate SavedBeforeRestarts(w: Watch, es: seq<Event>)
    requires w.Valid()
  {
    forall k :: 0 <= k < |es| && es[k].Reload? ==> w.id in w.start.rows || w.Saved(es[..k], -1)
  }

  lemma StepKeepsStored(f: Format, hash: Key -> PeerId, n: Node, e: Event, id: PeerId)
    requires Sound(f, hash, n) && id in n.peers && id in Step(f, hash, n, e).peers && StoredAsItIs(f, n, id)
    ensures StoredAsItIs(f, Step(f, hash, n, e), id)
    ensures Step(f, hash, n, e).peers[id].addr == n.peers[id].addr
    ensures e.Save? && Storable(n.peers) ==> SaveKeeps(f, n, id)
  {
    if e.Save? && Storable(n.peers) {
      RefreshedRow(f, n.rows, n.peers, id);
    } else {
      StepOnPeer(f, hash, n, e, id);
    }
  }

  lemma {:induction false} StayingStoredAsItIs(w: Watch, es: seq<Event>)
    requires w.Valid() && w.Stays(es) && StoredAsItIs(w.f, w.start, w.id)
    ensures w.id in w.After(es).peers && w.After(es).peers[w.id].addr == w.start.peers[w.id].addr
    ensures StoredAsItIs(w.f, w.After(es), w.id)
    ensures w.RowKept(es) <==> w.id in w.start.rows || w.Saved(es, -1)
  {
    if es == [] {
      assert w.After(es[..0]) == w.start;
    } else {
      var init, last := es[..|es| - 1], es[|es| - 1];
      StaysStep(w, es);
      StayingStoredAsItIs(w, init);
      OneMoreEvent(w, es, -1);
      assert w.After(es) == Step(w.f, w.hash, w.After(init), last);
      StepKeepsStored(w.f, w.hash, w.After(init), last, w.id);
    }
  }

  lemma SavedStep(w: Watch, es: seq<Event>)
    requires w.Valid() && es != []
    ensures var init := es[..|es| - 1];
            SavedBeforeRestarts(w, es)
            <==> && SavedBeforeRestarts(w, init)
                 && (es[|init|].Reload? ==> w.id in w.start.rows || w.Saved(init, -1))
  {
    var init := es[..|es| - 1];
    forall k | 0 <= k <= |init| ensures es[..k] == init[..k] && (k < |init| ==> es[k] == init[k]) {}
    assert init[..|init|] == init;
  }

  lemma {:induction false} StoredStaysIff(w: Watch, es: seq<Event>)
    requires w.Valid() && StoredAsItIs(w.f, w.start, w.id)
    ensures w.Stays(es) <==> w.HeardInTime(es) && SavedBeforeRestarts(w, es)
  {
    if es == [] {
      assert es[..0] == [];
    } else {
      var init := es[..|es| - 1];
      StoredStaysIff(w, init);
      StaysIff(w, init);
      StaysIff(w, es);
      StaysStep(w, es);
      HeardStep(w, es);
      SavedStep(w, es);
      if w.Stays(init) {
        StayingStoredAsItIs(w, init);
      }
    }
  }

  /**
   * A peer whose row, if it has one, is under its own address never loses the row: it stays exactly
   * when it is heard in time and a save comes before the restarts, and keeps its address.
   */
  lemma StoredPeerStays(w: Watch, es: seq<Event>)
    requires w.Valid() && StoredAsItIs(w.f, w.start, w.id)
    ensures w.Stays(es) <==> w.HeardInTime(es) && SavedBeforeRestarts(w, es)
    ensures w.Stays(es) ==> w.id in w.After(es).peers && w.After(es).peers[w.id].addr == w.start.peers[w.id].addr
  {
    StoredStaysIff(w, es);
    if w.Stays(es) {
      StayingStoredAsItIs(w, es);
    }
  }

  lemma RunSnoc(f: Format, hash: Key -> PeerId, n: Node, es: seq<Event>, e: Event)
    requires Sound(f, hash, n)
    ensures Run(f, hash, n, es + [e]) == Step(f, hash, Run(f, hash, n, es), e)
  {
    assert (es + [e])[..|es|] == es;
  }

  lemma OneRowRoundTrip(f: Format, info: PeerInfo)
    requires f.Faithful() && info.lastSeen < INTEGER_LIMIT
    ensures var rows := Refreshed(f, map[], map[info.id := info]);
            Readable(f, rows) && LoadedPeers(f, rows) == map[info.id := info]
  {
    var peers := map[info.id := info];
    var rows := Refreshed(f, map[], peers);
    forall id ensures id in rows <==> id == info.id {
      RefreshedRow(f, map[], peers, id);
    }
    assert rows[info.id] == RowOf(f, info);
    WrittenRowReads(f, info.id, info);
  }

  /** Heard 25 seconds before the prune, and dropped: the restart brought back the time of the save. */
  lemma RestartDropsRegularPeer(f: Format, hash: Key -> PeerId, key: Key, addr: Addr)
    requires f.Faithful()
    ensures
      var start, register := Node(map[], map[], 0), Event.Register(key, addr, "", false);
      var beforeRestart := [register] + [Save] + [Tick(100)] + [register];
      var beforePrune := beforeRestart + [Reload] + [Tick(125)];
      && hash(key) in Run(f, hash, start, beforeRestart).peers
      && Run(f, hash, start, beforeRestart).peers[hash(key)].lastSeen == 100
      && Run(f, hash, start, beforePrune).now == 125
      && hash(key) in Run(f, hash, start, beforePrune).peers
      && hash(key) !in Run(f, hash, start, beforePrune + [Prune]).peers
  {
    var start, register := Node(map[], map[], 0), Event.Register(key, addr, "", false);
    var info := PeerInfo(hash(key), addr, "", 0, false, key);
    var a := [register];
    var b := a + [Save];
    var c := b + [Tick(100)];
    var d := c + [register];
    var e := d + [Reload];
    var g := e + [Tick(125)];
    assert [] + [register] == a;
    RunSnoc(f, hash, start, [], register);
    RunSnoc(f, hash, start, a, Save);
    OneRowRoundTrip(f, info);
    assert Run(f, hash, start, b) == Node(map[info.id := info], Refreshed(f, map[], map[info.id := info]), 0);
    RunSnoc(f, hash, start, b, Tick(100));
    RunSnoc(f, hash, start, c, register);
    RunSnoc(f, hash, start, d, Reload);
    assert Run(f, hash, start, e).peers == map[info.id := info];
    RunSnoc(f, hash, start, e, Tick(125));
    RunSnoc(f, hash, start, g, Prune);
  }

  lemma StaleRowGoes(f: Format, n: Node, id: PeerId, a: Addr)
    requires f.Faithful() && Storable(n.peers)
    requires id in n.rows && n.rows[id].addr == f.showAddr(a) && forall other <- n.peers :: n.peers[other].addr != a
    ensures id !in Refreshed(f, n.rows, n.peers)
  {
    RefreshedRow(f, n.rows, n.peers, id);
    forall other | other in n.peers ensures f.showAddr(n.peers[other].addr) != f.showAddr(a) {
      assert f.parseAddr(f.showAddr(a)) == Some(a);
    }
  }

  /** A peer registers, is saved, is silent for two minutes and is pruned: its row is still there. */
  lemma DroppedPeerHasRow(f: Format, hash: Key -> PeerId, key: Key, a: Addr)
    requires f.Faithful()
    ensures var n := Run(f, hash, Node(map[], map[], 0), [Event.Register(key, a, "", false)] + [Save] + [Tick(120)] + [Prune]);
            n.now == 120 && n.peers.Keys == {} && hash(key) in n.rows && n.rows[hash(key)].addr == f.showAddr(a)
  {
    var start, first := Node(map[], map[], 0), Event.Register(key, a, "", false);
    var s1 := [first];
    var s2 := s1 + [Save];
    var s3 := s2 + [Tick(120)];
    assert [] + [first] == s1;
    RunSnoc(f, hash, start, [], first);
    RunSnoc(f, hash, start, s1, Save);
    var n := Run(f, hash, start, s1);
    assert n.peers.Keys == {hash(key)} && n.rows.Keys == {} && n.now == 0;
    RefreshedRow(f, n.rows, n.peers, hash(key));
    RunSnoc(f, hash, start, s2, Tick(120));
    RunSnoc(f, hash, start, s3, Prune);
  }

  /** It comes back from another address: the next save deletes the row. */
  lemma SaveDropsRow(f: Format, hash: Key -> PeerId, n: Node, key: Key, a: Addr, b: Addr)
    requires Sound(f, hash, n) && n.peers.Keys == {} && n.now < INTEGER_LIMIT && a != b
    requires hash(key) in n.rows && n.rows[hash(key)].addr == f.showAddr(a)
    ensures var back := Step(f, hash, n, Event.Register(key, b, "", false));
            && Sound(f, hash, back)
            && var after := Step(f, hash, back, Save);
               && hash(key) in after.peers && after.peers[hash(key)].lastSeen == after.now
               && hash(key) !in after.rows
  {
    var register := Event.Register(key, b, "", false);
    StepKeepsSound(f, hash, n, register);
    var back := Step(f, hash, n, register);
    assert back.peers.Keys == {hash(key)} && back.peers[hash(key)].addr == b;
    StaleRowGoes(f, back, hash(key), a);
  }

  lemma ReloadForgets(f: Format, hash: Key -> PeerId, n: Node, id: PeerId)
    requires Sound(f, hash, n) && id !in n.rows
    ensures id !in Step(f, hash, n, Reload).peers
  {}

  /**
   * A peer that came back from another address after it was dropped still has its old row; the save
   * that follows deletes this row although the peer is in memory, and a restart then forgets the peer.
   */
  lemma RestartForgetsPeer(f: Format, hash: Key -> PeerId, key: Key, a: Addr, b: Addr)
    requires f.Faithful() && a != b
    ensures
      var start, id := Node(map[], map[], 0), hash(key);
      var dropped := [Event.Register(key, a, "", false)] + [Save] + [Tick(120)] + [Prune];
      var es := dropped + [Event.Register(key, b, "", false)] + [Save];
      && id in Run(f, hash, start, es).peers
      && Run(f, hash, start, es).peers[id].lastSeen == Run(f, hash, start, es).now
      && id !in Run(f, hash, start, es + [Reload]).peers
  {
    var start, register := Node(map[], map[], 0), Event.Register(key, b, "", false);
    var dropped := [Event.Register(key, a, "", false)] + [Save] + [Tick(120)] + [Prune];
    DroppedPeerHasRow(f, hash, key, a);
    SaveDropsRow(f, hash, Run(f, hash, start, dropped), key, a, b);
    var n := Run(f, hash, start, dropped);
    RunSnoc(f, hash, start, dropped, register);
    RunSnoc(f, hash, start, dropped + [register], Save);
    var after := Run(f, hash, start, dropped + [register] + [Save]);
    assert after == Step(f, hash, Step(f, hash, n, register), Save);
    RunSnoc(f, hash, start, dropped + [register] + [Save], Reload);
    ReloadForgets(f, hash, after, hash(key));
  }
}
