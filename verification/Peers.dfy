/** The peer table in memory, and its copy in the database. */
module Peers {
  import opened Types
  import opened Text

  // ---------- in memory ----------

  const SILENCE_LIMIT := 120

  /** A registration: a known key only refreshes its time, an unknown one gets an entry. */
  function Registered(peers: PeerMap, id: PeerId, entry: PeerInfo): PeerMap {
    if id in peers then peers[id := peers[id].(lastSeen := entry.lastSeen)] else peers[id := entry]
  }

  predicate SeenBy(peers: PeerMap, now: U64) { forall id <- peers :: peers[id].lastSeen <= now }

  function Pruned(peers: PeerMap, now: U64): PeerMap {
    map id | id in peers && now - peers[id].lastSeen < SILENCE_LIMIT :: peers[id]
  }

  class PeerTable {
    const hash: Key -> PeerId
    var peers: PeerMap

    /** A node whose memory this is, at this time. */
    ghost predicate Stands(f: Format, n: Node, was: PeerMap, now: U64) {
      Sound(f, hash, n) && n.peers == was && n.now == now
    }

    constructor (hash: Key -> PeerId, loaded: PeerMap)
      ensures this.hash == hash && peers == loaded
    {
      this.hash := hash;
      peers := loaded;
    }

    method Register(key: Key, addr: Addr, username: string, isRelay: bool, now: U64)
      modifies this
      ensures forall f: Format, n: Node :: Stands(f, n, old(peers), now) ==>
                Step(f, hash, n, Event.Register(key, addr, username, isRelay)) == n.(peers := peers)
      ensures peers == Registered(old(peers), hash(key), PeerInfo(hash(key), addr, username, now, isRelay, key))
      ensures peers.Keys == old(peers).Keys + {hash(key)}
      ensures forall id <- old(peers) :: id != hash(key) ==> peers[id] == old(peers)[id]
      ensures peers[hash(key)] == if hash(key) in old(peers) then old(peers)[hash(key)].(lastSeen := now)
                                  else PeerInfo(hash(key), addr, username, now, isRelay, key)
    {
      var id := hash(key);
      if id in peers {
        peers := peers[id := peers[id].(lastSeen := now)];
      } else {
        peers := peers[id := PeerInfo(id, addr, username, now, isRelay, key)];
      }
    }

    /** The subtraction is on unsigned numbers: it needs every peer to have been seen by now. */
    method DeleteDisconnectedPeers(now: U64)
      requires SeenBy(peers, now)
      modifies this
      ensures forall f: Format, n: Node :: Stands(f, n, old(peers), now) ==> Step(f, hash, n, Prune) == n.(peers := peers)
      ensures peers == Pruned(old(peers), now)
      ensures forall id :: id in peers <==> id in old(peers) && now - old(peers)[id].lastSeen < 120
      ensures forall id <- peers :: peers[id] == old(peers)[id]
    {
      var rest := peers.Keys;
      var kept := peers;
      while rest != {}
        invariant rest <= peers.Keys && kept.Keys <= peers.Keys
        invariant forall id <- kept :: kept[id] == peers[id]
        invariant forall id <- peers :: id in kept <==> id in rest || now - peers[id].lastSeen < SILENCE_LIMIT
        invariant peers == old(peers)
      {
        var id :| id in rest;
        var silence: U64 := now - peers[id].lastSeen;
        if silence >= SILENCE_LIMIT {
          kept := kept - {id};
        }
        rest := rest - {id};
      }
      peers := kept;
    }
  }

  // ---------- in the database ----------

  /** How addresses and keys are written to TEXT columns and read back. */
  datatype Format = Format(showAddr: Addr -> string, showKey: Key -> string,
                           parseAddr: string -> Option<Addr>, parseKey: string -> Option<Key>) {

    ghost predicate Faithful() {
      && (forall a: Addr :: parseAddr(showAddr(a)) == Some(a))
      && (forall k: Key :: parseKey(showKey(k)) == Some(k))
    }
  }

  const TEXT := Format(ShowAddr, (k: Key) => HexEncode(k), ParseAddr, KeyOfHex)

  lemma TextIsFaithful()
    ensures TEXT.Faithful()
  {
    forall a: Addr ensures ParseAddr(ShowAddr(a)) == Some(a) {
      AddrRoundTrip(a);
    }
    forall k: Key ensures KeyOfHex(HexEncode(k)) == Some(k) {
      HexRoundTrip(k);
    }
  }

  datatype PeerRow = PeerRow(addr: string, username: string, lastSeen: U64, isRelay: bool, keyHex: string)

  type PeerRows = map<PeerId, PeerRow>

  function RowOf(f: Format, info: PeerInfo): PeerRow {
    PeerRow(f.showAddr(info.addr), info.username, info.lastSeen, info.isRelay, f.showKey(info.verifyingKey))
  }

  predicate Storable(peers: PeerMap) { forall id <- peers :: peers[id].lastSeen < INTEGER_LIMIT }

  /** INSERT ... ON CONFLICT(id) DO UPDATE: an existing row keeps its address, name and key. */
  function UpsertOne(f: Format, rows: PeerRows, id: PeerId, info: PeerInfo): PeerRows {
    rows[id := if id in rows then rows[id].(lastSeen := info.lastSeen, isRelay := info.isRelay) else RowOf(f, info)]
  }

  function RowAfter(f: Format, rows: PeerRows, peers: PeerMap, id: PeerId): PeerRow
    requires id in rows || id in peers
  {
    if id !in peers then rows[id]
    else if id in rows then rows[id].(lastSeen := peers[id].lastSeen, isRelay := peers[id].isRelay)
    else RowOf(f, peers[id])
  }

  function Upserted(f: Format, rows: PeerRows, peers: PeerMap): PeerRows {
    map id | id in rows.Keys + peers.Keys :: RowAfter(f, rows, peers, id)
  }

  function LiveAddrs(f: Format, peers: PeerMap): set<string> { set id | id in peers :: f.showAddr(peers[id].addr) }

  function WithLiveAddr(f: Format, rows: PeerRows, peers: PeerMap): PeerRows {
    map id | id in rows && rows[id].addr in LiveAddrs(f, peers) :: rows[id]
  }

  function Refreshed(f: Format, rows: PeerRows, peers: PeerMap): PeerRows {
    if Storable(peers) then WithLiveAddr(f, Upserted(f, rows, peers), peers) else rows
  }

  function ReadRow(f: Format, id: PeerId, row: PeerRow): Option<PeerInfo> {
    match (f.parseAddr(row.addr), f.parseKey(row.keyHex))
    case (Some(addr), Some(key)) => Some(PeerInfo(id, addr, row.username, row.lastSeen, row.isRelay, key))
    case _ => None
  }

  predicate Readable(f: Format, rows: PeerRows) { forall id <- rows :: ReadRow(f, id, rows[id]).Some? }

  function LoadedPeers(f: Format, rows: PeerRows): PeerMap
    requires Readable(f, rows)
  {
    map id | id in rows :: ReadRow(f, id, rows[id]).value
  }

  /** Wherever a node has these rows and peers, saving makes the rows these. */
  ghost predicate Saves(f: Format, before: PeerRows, peers: PeerMap, after: PeerRows) {
    forall hash: Key -> PeerId, n: Node ::
      Sound(f, hash, n) && n.rows == before && n.peers == peers ==> Step(f, hash, n, Save) == n.(rows := after)
  }

  lemma RefreshIsSave(f: Format, rows: PeerRows, peers: PeerMap)
    ensures Saves(f, rows, peers, Refreshed(f, rows, peers))
  {}

  class PeerDb {
    const f: Format
    var rows: PeerRows

    constructor (f: Format)
      ensures this.f == f && rows == map[]
    {
      this.f := f;
      rows := map[];
    }

    /** The loop visits the map in whatever order; the result does not depend on it. */
    method RefreshPeers(peers: PeerMap) returns (ok: bool)
      modifies this
      ensures Saves(f, old(rows), peers, rows)
      ensures ok <==> forall id <- peers :: peers[id].lastSeen < 0x8000_0000_0000_0000
      ensures !ok ==> rows == old(rows)
      ensures rows == Refreshed(f, old(rows), peers)
    {
      var rest, tx := peers.Keys, rows;
      while rest != {}
        invariant rest <= peers.Keys
        invariant forall id <- peers :: id in rest || peers[id].lastSeen < INTEGER_LIMIT
        invariant tx.Keys == rows.Keys + (peers.Keys - rest)
        invariant forall id <- tx :: tx[id] == if id in rest then rows[id] else RowAfter(f, rows, peers, id)
        invariant rows == old(rows)
      {
        var id :| id in rest;
        if peers[id].lastSeen >= INTEGER_LIMIT {
          RefreshIsSave(f, rows, peers);
          return false;
        }
        tx := UpsertOne(f, tx, id, peers[id]);
        rest := rest - {id};
      }
      assert tx == Upserted(f, rows, peers);
      rows := WithLiveAddr(f, tx, peers);
      RefreshIsSave(f, old(rows), peers);
      ok := true;
    }

    /** None is a row that cannot be read, which stops the node. */
    method GetPeers() returns (peers: Option<PeerMap>)
      ensures forall hash: Key -> PeerId, n: Node :: Sound(f, hash, n) && n.rows == rows ==>
                peers.Some? && Step(f, hash, n, Reload) == n.(peers := peers.value)
      ensures peers == if Readable(f, rows) then Some(LoadedPeers(f, rows)) else None
    {
      var rest := rows.Keys;
      var read: PeerMap := map[];
      while rest != {}
        invariant rest <= rows.Keys && read.Keys == rows.Keys - rest
        invariant forall id <- read :: ReadRow(f, id, rows[id]) == Some(read[id])
      {
        var id :| id in rest;
        match ReadRow(f, id, rows[id]) {
          case None => return None;
          case Some(info) => read := read[id := info];
        }
        rest := rest - {id};
      }
      assert read.Keys == rows.Keys;
      assert forall id <- rows :: id in read && ReadRow(f, id, rows[id]) == Some(read[id]);
      assert read == LoadedPeers(f, rows);
      return Some(read);
    }
  }

  // ---------- when the table agrees with memory ----------

  ghost predicate Agrees(f: Format, rows: PeerRows, peers: PeerMap) {
    && rows.Keys == peers.Keys
    && forall id <- rows ::
         && rows[id].addr == f.showAddr(peers[id].addr)
         && rows[id].lastSeen == peers[id].lastSeen
         && rows[id].isRelay == peers[id].isRelay
  }

  /** Every stored row whose address is live belongs to the live peer with that id and address. */
  ghost predicate LiveRowsMatch(f: Format, rows: PeerRows, peers: PeerMap) {
    forall id <- rows :: rows[id].addr in LiveAddrs(f, peers) ==>
      id in peers && rows[id].addr == f.showAddr(peers[id].addr)
  }

  /** No live peer is stored under an address that nobody has now. */
  ghost predicate NoStaleAddr(f: Format, rows: PeerRows, peers: PeerMap) {
    forall id <- rows :: id in peers ==> rows[id].addr in LiveAddrs(f, peers)
  }

  /** What a refresh makes of one row: kept by its address; address, name and key as they were. */
  lemma RefreshedRow(f: Format, rows: PeerRows, peers: PeerMap, id: PeerId)
    requires Storable(peers)
    ensures id in Refreshed(f, rows, peers)
            <==> if id in rows then rows[id].addr in LiveAddrs(f, peers) else id in peers
    ensures id in Refreshed(f, rows, peers) ==>
              && (var row := if id in rows then rows[id] else RowOf(f, peers[id]);
                  && Refreshed(f, rows, peers)[id].addr == row.addr
                  && Refreshed(f, rows, peers)[id].username == row.username
                  && Refreshed(f, rows, peers)[id].keyHex == row.keyHex)
              && (id in peers ==> Refreshed(f, rows, peers)[id].lastSeen == peers[id].lastSeen
                                  && Refreshed(f, rows, peers)[id].isRelay == peers[id].isRelay)
  {}

  /** One refresh is enough exactly when, besides, no live peer is stored under a stale address. */
  lemma AgreesAfterOneIff(f: Format, rows: PeerRows, peers: PeerMap)
    requires Storable(peers)
    ensures Agrees(f, Refreshed(f, rows, peers), peers)
            <==> LiveRowsMatch(f, rows, peers) && NoStaleAddr(f, rows, peers)
  {
    var once := Refreshed(f, rows, peers);
    forall id
      ensures id in once <==> if id in rows then rows[id].addr in LiveAddrs(f, peers) else id in peers
      ensures id in once ==> once[id].addr == (if id in rows then rows[id].addr else f.showAddr(peers[id].addr))
      ensures id in once && id in peers ==>
                once[id].lastSeen == peers[id].lastSeen && once[id].isRelay == peers[id].isRelay
    {
      RefreshedRow(f, rows, peers, id);
    }
    if Agrees(f, once, peers) {
      forall id | id in rows && rows[id].addr in LiveAddrs(f, peers)
        ensures id in peers && rows[id].addr == f.showAddr(peers[id].addr)
      {
        assert id in once.Keys;
      }
      forall id | id in rows && id in peers ensures rows[id].addr in LiveAddrs(f, peers) {
        assert id in once.Keys;
      }
    }
  }

  /** A stale row is deleted by the first refresh and inserted afresh by the second. */
  lemma FirstRefreshCleans(f: Format, rows: PeerRows, peers: PeerMap)
    requires Storable(peers)
    ensures NoStaleAddr(f, Refreshed(f, rows, peers), peers)
    ensures LiveRowsMatch(f, Refreshed(f, rows, peers), peers) <==> LiveRowsMatch(f, rows, peers)
  {
    var once := Refreshed(f, rows, peers);
    forall id
      ensures id in once ==> once[id].addr in LiveAddrs(f, peers)
      ensures id in rows && rows[id].addr in LiveAddrs(f, peers) ==> id in once && once[id].addr == rows[id].addr
      ensures id in once && id !in rows ==> id in peers && once[id].addr == f.showAddr(peers[id].addr)
      ensures id in once && id in rows ==> once[id].addr == rows[id].addr
    {
      RefreshedRow(f, rows, peers, id);
    }
  }

  /** Two refreshes of an unchanged map agree with memory exactly when the live rows matched. */
  lemma AgreesAfterTwoIff(f: Format, rows: PeerRows, peers: PeerMap)
    requires Storable(peers)
    ensures Agrees(f, Refreshed(f, Refreshed(f, rows, peers), peers), peers) <==> LiveRowsMatch(f, rows, peers)
  {
    FirstRefreshCleans(f, rows, peers);
    AgreesAfterOneIff(f, Refreshed(f, rows, peers), peers);
  }

  /** A third refresh changes nothing, whatever the table and the map were. */
  lemma ThirdRefreshIsIdle(f: Format, rows: PeerRows, peers: PeerMap)
    ensures var twice := Refreshed(f, Refreshed(f, rows, peers), peers);
            Refreshed(f, twice, peers) == twice
  {
    if Storable(peers) {
      var once := Refreshed(f, rows, peers);
      FirstRefreshCleans(f, rows, peers);
      forall id | id in peers ensures id in Refreshed(f, once, peers) {
        RefreshedRow(f, once, peers, id);
      }
      CompleteTableIsIdle(f, once, peers);
    }
  }

  lemma CompleteTableIsIdle(f: Format, rows: PeerRows, peers: PeerMap)
    requires Storable(peers)
    requires peers.Keys <= Refreshed(f, rows, peers).Keys
    ensures Refreshed(f, Refreshed(f, rows, peers), peers) == Refreshed(f, rows, peers)
  {
    var once := Refreshed(f, rows, peers);
    forall id | id in once
      ensures once[id].addr in LiveAddrs(f, peers)
      ensures id in peers ==> once[id].lastSeen == peers[id].lastSeen && once[id].isRelay == peers[id].isRelay
    {
      RefreshedRow(f, rows, peers, id);
    }
    NothingToRefresh(f, once, peers);
  }

  lemma NothingToUpsert(f: Format, rows: PeerRows, peers: PeerMap)
    requires peers.Keys <= rows.Keys
    requires forall id <- peers :: rows[id].lastSeen == peers[id].lastSeen && rows[id].isRelay == peers[id].isRelay
    ensures Upserted(f, rows, peers) == rows
  {
    assert rows.Keys + peers.Keys == rows.Keys;
    assert forall id <- rows :: RowAfter(f, rows, peers, id) == rows[id];
  }

  lemma NothingToRefresh(f: Format, rows: PeerRows, peers: PeerMap)
    requires peers.Keys <= rows.Keys
    requires forall id <- rows :: rows[id].addr in LiveAddrs(f, peers)
    requires forall id <- peers :: rows[id].lastSeen == peers[id].lastSeen && rows[id].isRelay == peers[id].isRelay
    ensures Refreshed(f, rows, peers) == rows
  {
    NothingToUpsert(f, rows, peers);
    assert WithLiveAddr(f, rows, peers) == rows;
  }

  // ---------- runs: identity and time ----------

  /** A node's memory, table and clock; the hash of keys is any function. */
  datatype Node = Node(peers: PeerMap, rows: PeerRows, now: U64)

  datatype Event =
    | Register(key: Key, addr: Addr, username: string, isRelay: bool)
    | Prune
    | Tick(later: U64)  // the clock does not go back
    | Save
    | Reload            // a restart: memory becomes what the table says

  ghost predicate Keyed(hash: Key -> PeerId, peers: PeerMap) {
    forall id <- peers :: peers[id].id == id && hash(peers[id].verifyingKey) == id
  }

  ghost predicate RowsKeyed(f: Format, hash: Key -> PeerId, rows: PeerRows, now: U64) {
    && Readable(f, rows)
    && forall id <- rows :: hash(ReadRow(f, id, rows[id]).value.verifyingKey) == id && rows[id].lastSeen <= now
  }

  /** Key, id and key hash are the same everywhere, and nobody was seen in the future. */
  ghost predicate Sound(f: Format, hash: Key -> PeerId, n: Node) {
    f.Faithful() && Keyed(hash, n.peers) && SeenBy(n.peers, n.now) && RowsKeyed(f, hash, n.rows, n.now)
  }

  ghost function Step(f: Format, hash: Key -> PeerId, n: Node, e: Event): Node
    requires Sound(f, hash, n)
  {
    match e
    case Register(key, addr, username, isRelay) =>
      n.(peers := Registered(n.peers, hash(key), PeerInfo(hash(key), addr, username, n.now, isRelay, key)))
    case Prune => n.(peers := Pruned(n.peers, n.now))
    case Tick(later) => if later >= n.now then n.(now := later) else n
    case Save => n.(rows := Refreshed(f, n.rows, n.peers))
    case Reload => n.(peers := LoadedPeers(f, n.rows))
  }

  lemma WrittenRowReads(f: Format, id: PeerId, info: PeerInfo)
    requires f.Faithful()
    ensures ReadRow(f, id, RowOf(f, info)) == Some(info.(id := id))
  {
  }

  lemma SaveKeepsRowsKeyed(f: Format, hash: Key -> PeerId, n: Node)
    requires Sound(f, hash, n)
    ensures RowsKeyed(f, hash, Refreshed(f, n.rows, n.peers), n.now)
  {
    var after := Refreshed(f, n.rows, n.peers);
    forall id | id in after
      ensures ReadRow(f, id, after[id]).Some?
      ensures hash(ReadRow(f, id, after[id]).value.verifyingKey) == id && after[id].lastSeen <= n.now
    {
      if id in n.rows {
        assert after[id].addr == n.rows[id].addr && after[id].keyHex == n.rows[id].keyHex;
      } else {
        assert after[id] == RowOf(f, n.peers[id]);
        WrittenRowReads(f, id, n.peers[id]);
      }
    }
  }

  lemma StepKeepsSound(f: Format, hash: Key -> PeerId, n: Node, e: Event)
    requires Sound(f, hash, n)
    ensures Sound(f, hash, Step(f, hash, n, e))
  {
    if e.Save? {
      SaveKeepsRowsKeyed(f, hash, n);
    }
  }

  /** The end of a run; every state on the way is sound, so no step is ever taken from a bad one. */
  ghost function Run(f: Format, hash: Key -> PeerId, n: Node, es: seq<Event>): (end: Node)
    requires Sound(f, hash, n)
    ensures Sound(f, hash, end)
  {
    if es == [] then n else
    var before := Run(f, hash, n, es[..|es| - 1]);
    StepKeepsSound(f, hash, before, es[|es| - 1]);
    Step(f, hash, before, es[|es| - 1])
  }

  /**
   * From an empty table, through registering, pruning, saving and restarting: in memory and in the
   * table the key of an entry is its id and the hash of its verifying key, every row can be read back,
   * and nobody was seen in the future, so that pruning never subtracts more than there is.
   */
  lemma AlwaysSound(hash: Key -> PeerId, start: U64, es: seq<Event>)
    ensures TEXT.Faithful() && Sound(TEXT, hash, Node(map[], map[], start))
    ensures Sound(TEXT, hash, Run(TEXT, hash, Node(map[], map[], start), es))
  {
    TextIsFaithful();
  }
}
