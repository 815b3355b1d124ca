# Zeta Network: a verified model

Zeta Network is a small peer-to-peer network over UDP. A hub keeps a table of relays; nodes declare
themselves to it, ask it for a relay, register with that relay, and flood chat messages through the
peer tables of the nodes. Each node keeps its peers and a log of messages in memory, saves both to a
database now and then, and loads them when it starts.

The files follow the program:

| file | what it models |
|---|---|
| Types.dfy | addresses, peers, headers, payloads, messages |
| Text.dfy, Codec.dfy | how a logged message is written to text columns and read back |
| InsertIgnore.dfy, LogTable.dfy | the `logs` table: whole snapshots, duplicates ignored, nothing deleted; the load |
| HubLog.dfy | the hub's log between pushes, trims, snapshots and commits |
| MsgIds.dfy | the message counter across restarts and changes of address |
| Peers.dfy | the peer table in memory and in the database, pruning, the clock |
| PeersStay.dfy | which peers a node keeps through pruning, saving and restarting |
| Flood.dfy, FloodTheorems.dfy, FloodRows.dfy | the flood of one message, as a transition system over all schedules |
| AckWait.dfy, Dispatch.dfy | waiting for acknowledgements; the dispatcher and its bounded channels |
| Handshake.dfy, HandshakeProof.dfy, HandshakePackets.dfy, HandshakeProgress.dfy | the protocol between nodes, hub and network |
| Nodes.dfy | the client node and the hub as objects that do the steps of that protocol |
| Overlay.dfy | the handshake and the flood together |
| Auth.dfy | what a signature covers |
| Nat.dfy | the NAT probes, and the NATs they are meant to tell apart |

Parts of the program that change fields in place (the peer map, the log, the tables, the counter, the
waiting acknowledgements, the channels) are classes; each of their methods is tied to a function on
values, and the theorems are about runs of those functions.

Some points where the model may surprise:

- Every relayed copy in the flood carries the list of table entries it went through. This is history
  only: no step looks at it. It names each copy, so that copies can be counted as walks in the graph of
  peer tables.
- In the handshake the network is the set of packets ever sent. A packet may arrive at any time after
  it was sent, any number of times or never, which covers loss, duplication and reordering.
- The hash of a key, the signature and the serialization are parameters; what is proved holds for all
  of them, or under the stated assumption on them.
- `HubLog.dfy` and `InsertIgnore.dfy` are written for any entry, row and key; `LogTable.LOGS` is the
  instance for messages.
- INTEGER columns are signed, so an id, time or `last_seen` of 2^63 or more makes the statement fail and
  the whole refresh roll back (src/db.rs:209-250).
- A message that gets an id may not leave, when the socket refuses it, and is then not logged
  (src/p2p/network.rs:21-23). `MsgIds` keeps apart the ids given out and the ids that went out.

Where the code and its design part, the model follows the code:

- Without a NAT the detector answers the wrong way round (src/nat_detector/util.rs:187-192, against
  section 10.1 of RFC 3489): `Nat.WithoutNatSwapped` says exactly how.
- A logged `PeerInfo` comes back with its id still in hexadecimal, and one whose username holds `|`
  stops the load (src/db.rs:98-111, src/db.rs:214-222).
- A flood has no memory, so on a cycle it never ends.
- After a node has found its relay nobody reads the hub channel, so the 33rd further answer of the hub
  stops its dispatcher (src/p2p/dispatch.rs:55, src/p2p/dispatch.rs:79-81).
- New ids are above all that is logged or stored for the address only as long as no stranger's message
  bears that address and an id not yet given out; the dispatcher logs any packet
  (src/p2p/dispatch.rs:66-74). `MsgIds.NewIdsAreAboveIff` is the exact condition, and
  `MsgIds.StrangerHidesOwnMessage` shows a message of the node's own that is then not stored.
- An id may be given out twice, when a message was refused by the socket or a stop came before the next
  refresh: `MsgIds.IdIsGivenAgain` has both runs, and `MsgIds.GivenIdsAreDistinctIff` says exactly when
  it does not happen. With a flush before each stop no id goes out twice
  (`MsgIds.SentIdsAreDistinct`); the program itself has no such flush.
- When the query for the largest id fails, ids start at 1 again (src/p2p/utils.rs:20); that is safe
  exactly when no id above 0 is stored for the address.
- The public address the detector reports depends on the order of the servers as soon as two of them
  saw different ones, and only then (`Nat.AddrIgnoresOrderIff`); the type does not.
- A restart takes a peer's `last_seen` back to the last save, so a peer heard 25 seconds ago can be
  dropped (`PeersStay.RestartDropsRegularPeer`); and a save deletes a live peer's row stored under an
  address that nobody has now, so that a restart after it forgets the peer
  (`PeersStay.RestartKeepsIff`, and the run in `PeersStay.RestartForgetsPeer`).
  `PeersStay.RegularPeerStays` says exactly which peers stay.

## Model

| member | source | states |
|---|---|---|
| Text.U64RoundTrip | src/db.rs:97-108 | every unsigned 64-bit number is parsed back from its decimal text |
| Text.ParseU64Iff | src/db.rs:97-108 | a number is read from digits of its value, leading zeros or not, after a plus or not, and from nothing else |
| Text.HexRoundTrip | src/db.rs:151 | every byte string is decoded back from its hexadecimal text |
| Text.HexDecodeIff | src/db.rs:151 | hexadecimal is read in both cases, in pairs, and from nothing else |
| Text.Utf8CharRoundTrip | src/db.rs:216 | the bytes of a character are those of RFC 3629: their bits make up its number, and the first says how many there are |
| Text.Utf8IsInjective | src/db.rs:216 | different texts have different bytes |
| Text.ParseBoolIff | src/db.rs:105 | a truth value is written and read as its word, and from nothing else |
| Text.AddrRoundTrip | src/db.rs:147-154 | every IPv4 socket address is parsed back from its text |
| Text.ParseIpIff | src/db.rs:147-154 | an IPv4 address is read from its own text and from nothing else |
| Text.ParseAddrIff | src/db.rs:147-154 | an IPv4 socket address is read from the text of its IP, a colon and digits of the value of its port, and from nothing else |
| Text.ShowAddrInjective | src/db.rs:43 | for IPv4: comparing addresses as text, as the unique key does, is comparing addresses |
| Codec.PeerRoundTrip | src/db.rs:98-111 | a peer whose name has no bar comes back in all fields, but for its id, which stays in hexadecimal |
| Codec.BarInNameAborts | src/db.rs:98-111 | a peer whose name has a bar, anywhere and however often, always stops the load |
| Codec.NewClientRoundTrip | src/db.rs:112-117 | a RelayHasNewClient comes back whole, even when the peer id holds bars |
| Codec.PayloadRoundTrip | src/db.rs:94-141 | every payload variant that is written has its arm in the reader; exactly the reloadable ones come back, the others stop the load |
| Codec.MessageRoundTrip | src/db.rs:143-155 | the same for whole messages with headers, last hop and signature |
| Codec.ReloadedIdDiffers | src/db.rs:216 | the peer id that comes back is the original only when it was empty |
| Codec.ReloadedIsInjective | src/db.rs:216 | different peers are still told apart after a reload |
| Codec.ForeignRows | src/db.rs:94-141 | what the load makes of rows this program would not write: bare types with any text, unknown types, missing texts, an Ack that is no number |
| Codec.RowsWithTooFewBars | src/db.rs:98-117 | a peer with too few fields stops the load; a new client without a bar has no name |
| Codec.ColumnsMeaning | src/db.rs:143-155 | which column becomes which part of the message |
| InsertIgnore.Table.Refresh | src/db.rs:203-252 | one transaction over the snapshot: it commits with every entry or, if one cannot be stored, leaves the table alone |
| InsertIgnore.Table.Load | src/db.rs:83-158 | the scan gives the readable rows in order, passes over unknown types, and gives up at a row that cannot be read |
| InsertIgnore.TableIsDedup | src/db.rs:203-252 | after any history of refreshes the table is the first-occurrence dedup of the committed snapshots, in order |
| InsertIgnore.DedupMeaning | src/db.rs:43 | that dedup has unique keys, and its rows are exactly the first rows of their key |
| InsertIgnore.InsertAllKeeps | src/db.rs:232-247 | rows are never altered or removed, and keys stay unique |
| InsertIgnore.RefreshKeepsRecords | src/db.rs:232-247 | what is recorded stays recorded, and a committed snapshot is recorded completely |
| InsertIgnore.LoadFails | src/db.rs:83-158 | a load gives up if and only if some row stops it |
| InsertIgnore.LoadThenRefresh | src/db.rs:83-158 | refreshing what was loaded changes nothing, and only later entries can add rows |
| LogTable.RowsReadBack | src/db.rs:94-141 | rows of the `logs` table are read back as the codec says, for every message |
| LogTable.CommitsIff | src/db.rs:207-250 | a refresh of the logs stores every message, unless the id or time of one needs the 64th bit; then it stores nothing |
| LogTable.SameRowIff | src/db.rs:43 | messages share a row if and only if they agree in id, source address and source name |
| LogTable.StartUp | src/db.rs:83-158 | after any history a node finds each first occurrence, reloaded, in order; it fails to start if and only if one of these names a peer with a bar |
| LogTable.RestartsKeepLog | src/db.rs:83-158 | any number of load-and-refresh cycles leaves the table as it is, so every load returns the same log |
| HubLog.StepKeepsSafe | src/hub_relay.rs:36-66 | every push, snapshot and commit, and every trim that drains no more than was committed, keeps: nothing is drained that was not committed, so nothing is lost |
| HubLog.StepLosesIff | src/hub_relay.rs:39-43 | when the uncommitted messages have keys of their own, a step loses a message if and only if it is a trim of more than 10000 messages of which fewer than 1000 are committed |
| HubLog.NothingIsLostIff | src/hub_relay.rs:36-66 | over any interleaving in which each message pushed has a new key: every message is at all times in memory or in the table, if and only if every trim that drains finds 1000 committed messages in memory |
| HubLog.NothingIsLost | src/hub_relay.rs:36-66 | over any interleaving, whatever the keys: if no trim finds more than 9001 pushes since the last committed snapshot, every message is at all times in memory or in the table |
| HubLog.BoundIsTight | src/hub_relay.rs:40-41 | with one push more, a hub that started with 999 messages loses one |
| HubLog.StartIsSafe | src/hub_relay.rs:30 | a hub is safe when it starts from any table it wrote |
| HubLog.RefreshWritesSnapshot | src/db.rs:203-252 | whatever is pushed and trimmed meanwhile: a finished refresh has stored every message that was in memory when it began, and none but those, and only what was pushed since is uncommitted; or, when one of them cannot be stored, nothing |
| HubLog.MemoryBound | src/hub_relay.rs:36-46 | the length in memory at any pace of up to 1000 pushes between trims |
| HubLog.MemoryNeverExceeds | src/hub_relay.rs:36-46 | from at most 10000 messages, at 1000 pushes between trims, never more than 11000 |
| HubLog.MemorySettles | src/hub_relay.rs:36-46 | from any length, at 999 pushes between trims, at most 10000 after as many trims as the excess |
| HubLog.HubLogs.Push | src/hub_relay.rs:70 | appends to the log in memory |
| HubLog.HubLogs.Trim | src/hub_relay.rs:39-43 | drains the first 1000 messages of a log of more than 10000 |
| HubLog.HubLogs.TakeSnapshot | src/db.rs:204 | copies the log as it is; refreshes follow one another |
| HubLog.HubLogs.FinishRefresh | src/db.rs:207-251 | writes the copy in one transaction: every message of it is then in the table, if all can be stored |
| MsgIds.MsgCounter.NewMsgId | src/p2p/utils.rs:15-17 | returns the counter and steps it, wrapping around; the call is what a Send does to the counter |
| MsgIds.MsgCounter.InitMsgId | src/p2p/utils.rs:19-24 | starts one above the largest stored id, or at 1; the call is what a Restart does to the counter |
| MsgIds.MaxIsMaximum | src/db.rs:254-261 | the query's answer is the largest id stored for the address |
| MsgIds.StartExceedsStored | src/p2p/utils.rs:19-24 | a start whose query answers is above every id stored for its address |
| MsgIds.FailedQueryIsFreshIff | src/p2p/utils.rs:20 | a start whose query fails is above every stored id if and only if none above 0 is stored |
| MsgIds.StepIsAboveIff | src/p2p/utils.rs:15-24 | for every event, a trim or a restart too: "the next id is above every id logged or stored for the own address" is kept if and only if the event is not a packet under the own address with an id from the next on, nor a start whose query fails over stored ids |
| MsgIds.NewIdsAreAboveIff | src/p2p/utils.rs:15-24 | over any life with restarts, flushed or not, and changes of address: new ids are at all times above all logged and stored ones if and only if there is no such event |
| MsgIds.StrangerHidesOwnMessage | src/db.rs:232-234 | a stranger's message under the node's address and next id makes the table ignore the node's own |
| MsgIds.GivenIdsAreDistinctIff | src/p2p/utils.rs:15-17 | over any such life, with stops that flush or do not, counting messages that never left and those trimmed before they were stored: no (id, own address) pair is given out twice if and only if every message finds the ids given out before from its address below its own |
| MsgIds.IdIsGivenAgain | src/p2p/network.rs:19-25 | two runs that give out an id twice: the socket refuses a message, or the stop comes before the refresh; then the node restarts and gives its id to the next |
| MsgIds.StoredTrimIsCovered | src/hub_relay.rs:39-43 | a trim that drains only what is stored cannot take the counter back |
| MsgIds.TrimIsHubTrim | src/hub_relay.rs:39-43 | the trim of a life is the trim of the hub's log |
| MsgIds.SentIdsAreDistinct | src/p2p/utils.rs:15-24 | over any restarts and changes of address, with the log flushed before each stop, whatever strangers send, on a hub that trims too: no (id, own address) pair goes out twice |
| Peers.PeerTable.Register | src/client.rs:99-110 | a known key only gets a new time, an unknown one a new entry, all others stay; the call is a Register step of the runs below |
| Peers.PeerTable.DeleteDisconnectedPeers | src/p2p/peers.rs:13-20 | exactly the peers seen less than 120 seconds ago stay, unchanged; the call is a Prune step |
| Peers.PeerDb.RefreshPeers | src/db.rs:160-201 | upsert, then delete by address, in one transaction, whatever the order of the map; it fails and changes nothing when a time needs the 64th bit; the call is a Save step |
| Peers.PeerDb.GetPeers | src/db.rs:54-81 | the map of all rows, unless one cannot be read; the call is a Reload step |
| Peers.RefreshedRow | src/db.rs:168-196 | a row survives by its stored address; its address, name and key stay, its time and role follow memory |
| Peers.AgreesAfterOneIff | src/db.rs:160-201 | one refresh makes the table agree with memory if and only if live rows match and no live peer is stored under a stale address |
| Peers.AgreesAfterTwoIff | src/db.rs:160-201 | two refreshes of an unchanged map make the table agree if and only if every row with a live address is the live peer with that id and address |
| Peers.ThirdRefreshIsIdle | src/db.rs:160-201 | a third refresh changes nothing, whatever the table was |
| Peers.AlwaysSound | src/db.rs:54-81 | over every run of registering, pruning, saving and restarting: map key, id and key hash are equal in memory and table, and nobody was seen in the future |
| Peers.SaveKeepsRowsKeyed | src/db.rs:168-185 | saved rows can be read and belong to the key whose hash is their id |
| PeersStay.RestartKeepsIff | src/db.rs:160-201 | after a save that commits and a restart, a peer in memory is still there if and only if it had no row or its row's address is live; it has the time of memory and the stored address |
| PeersStay.RegularPeerStays | src/p2p/peers.rs:13-20 | over every run with restarts: a peer is never dropped if and only if every prune has a sighting of it under 120 seconds old that no restart undid, and the last save before every restart kept its row; memory has the latest such sighting, and the first or the stored address |
| PeersStay.StoredPeerStays | src/p2p/peers.rs:13-20 | a peer that is not stored under another address never loses its row: it stays if and only if it is heard in time and a save comes before the first restart, and it keeps its address |
| PeersStay.RestartDropsRegularPeer | src/db.rs:75 | a run in which a peer heard 25 seconds before a prune is dropped, since a restart brought back an older time |
| PeersStay.RestartForgetsPeer | src/db.rs:187-196 | a run in which a peer comes back from another address, the next save deletes its old row, and a restart forgets it although it was heard just before |
| Flood.Relay.RelayMessage | src/p2p/peers.rs:22-35 | one packet and one log entry for each entry of the table that is not at the originator's address and that the socket does not refuse, with this node as last hop |
| Flood.Relay.OnClassic | src/client.rs:130-134 | a message is logged and, unless it is for this address, every address but the originator's gets as many copies as the table has entries there, each logged; the call is the delivery of a copy in the flood |
| Flood.EndMeaning | src/p2p/peers.rs:26-28 | a walk, said on the tables alone: each node visited has the next entry, is not the addressee, and the entry leads to the next node, which is not the originator |
| Flood.DeliverKeepsInv | src/p2p/peers.rs:22-35 | the invariant of the flood: copies are walks, one for each, there once their parent was delivered |
| Flood.AlwaysInv | src/p2p/peers.rs:22-35 | it holds in every state of every schedule, with any losses |
| Flood.LongWalkIsCyclic | src/p2p/peers.rs:26-28 | a walk with more steps than nodes goes round a cycle |
| Flood.Walks | src/p2p/peers.rs:26-28 | the walks up to a length are a finite set, which holds exactly those |
| FloodTheorems.AcyclicFloodEnds | src/client.rs:130-134 | without a cycle in reach, every schedule is over after at most as many events as there are walks |
| FloodTheorems.CyclicFloodNeverEnds | src/client.rs:130-134 | with one, no lossless schedule ever goes quiet |
| FloodTheorems.QuietIffAcyclic | src/client.rs:130-134 | a lossless flood can go quiet if and only if no cycle is in reach |
| FloodTheorems.CopiesAtMostWalks | src/p2p/peers.rs:22-35 | with any losses, a node gets at most one copy for each walk to it |
| FloodTheorems.CopiesEqualWalks | src/p2p/peers.rs:22-35 | when a lossless flood is over, each node got exactly one copy for each walk, whatever the order of delivery |
| FloodTheorems.FloodReaches | src/p2p/peers.rs:22-35 | a finished lossless flood has reached exactly the nodes to which table entries lead from the relay, past no addressee and not to the originator |
| FloodTheorems.TreeIffOneWalkEach | src/p2p/peers.rs:26-28 | the entries used form a tree if and only if no node has two walks |
| FloodTheorems.ExactlyOneCopyIffTree | src/p2p/peers.rs:22-35 | everybody in reach gets one copy and nobody else any, if and only if the entries used form a tree |
| FloodTheorems.OriginatorIsSpared | src/p2p/peers.rs:26-28 | no copy goes to the originator, in any topology, also when tables change during the flood |
| FloodTheorems.CopiesKeepTheMessage | src/p2p/peers.rs:25-28 | every copy has the original headers and payload and differs in the last hop only, also when tables change during the flood |
| FloodTheorems.LogOfFlood | src/p2p/network.rs:19-25 | a node's log gains one entry per copy received and one per copy sent on, the first copy received before all others |
| FloodRows.FloodLeavesOneRow | src/db.rs:232-234 | with refreshes at any points of the flood, the table gets one row for it, by the first refresh that finds a copy: the first copy the node received; none before |
| Overlay.ConnectedOriginatorIsSpared | src/client.rs:257-261 | a node that got its relay from the hub never receives its own message |
| Auth.Scheme.Sign | src/p2p/auth.rs:53-68 | the signature is over the headers without signature and the payload |
| Auth.Scheme.SignedVerifies | src/p2p/auth.rs:53-89 | a signed message verifies, and a signature it carried before leaves no trace |
| Auth.Scheme.TamperingIsSeen | src/p2p/auth.rs:70-89 | when a signature is accepted for one text only, it verifies for no message with other headers or another payload |
| Auth.Scheme.ShortSignatureFails | src/p2p/auth.rs:84 | a signature without 64 bytes never verifies |
| Auth.Scheme.SignableDetermines | src/p2p/auth.rs:53-63 | the signed bytes determine headers and payload, and nothing else |
| Auth.Scheme.RetryIsSigned | src/client.rs:212-216 | a retry under a new id verifies, and its signed bytes are new |
| Auth.SignatureSurvivesFlood | src/p2p/peers.rs:25-28 | a copy verifies at any hop if and only if the message did at its origin |
| AckWait.AckWaiter.Register | src/p2p/dispatch.rs:27-31 | a new waiter under the id, replacing an older one |
| AckWait.AckWaiter.Resolve | src/p2p/dispatch.rs:34-39 | signals and removes the waiter under the id, if there is one |
| AckWait.SignalledIffAnswered | src/p2p/dispatch.rs:27-39 | an attempt is signalled if and only if an Ack for its id came after it and before its id was taken again |
| AckWait.SignalledAtMostOnce | src/p2p/dispatch.rs:34-39 | no attempt is signalled twice |
| AckWait.WaitReturnsTrueIff | src/p2p/network.rs:28-35 | with fresh ids, the wait returns true if and only if an Ack naming its id was dispatched between registration and timeout |
| AckWait.LateAckIsHarmless | src/client.rs:212-216 | Acks for other attempts, wherever they are inserted after the registration, neither complete this attempt nor hold it up |
| Dispatch.NodeDispatcher.OnMessage | src/p2p/dispatch.rs:64-86 | logs the message; an Ack is resolved, a relay offer or refusal goes to the hub channel, all else to the general one, or waits in front of it when it is full |
| Dispatch.StepKeepsInv | src/p2p/dispatch.rs:64-86 | every step of dispatcher and readers keeps: nothing lost, doubled or reordered within a class, channels within bounds |
| Dispatch.DispatchIsFaithful | src/p2p/dispatch.rs:64-86 | so it is in every run |
| Dispatch.PayloadsAreSplit | src/p2p/dispatch.rs:64-86 | in every run: the Acks received are those resolved; the offers and refusals received are those taken from the hub channel, in it, and held in front of it; all else likewise in the general one; in order, nothing twice |
| Dispatch.SplitIsHandshake | src/p2p/dispatch.rs:73-85 | the dispatcher gives its hub channel and its resolver what the handshake takes them to get |
| Dispatch.BlockedIffOverCapacity | src/p2p/dispatch.rs:53-61 | the dispatcher waits if and only if more than 32 hub answers or 256 other messages are undrained |
| Dispatch.UndrainedHubStops | src/p2p/dispatch.rs:79-81 | once it waits on a hub channel that nobody reads, it never receives again |
| Nodes.ClientNode.OnMessage | src/client.rs:96-166 | what a node does with a message in the handshake; the call is a Receive step wherever the message can arrive |
| Nodes.ClientNode.DeclareSelf | src/client.rs:196-216 | BeNewRelay under a new id, first and after each timeout; from idle the call is a Begin step |
| Nodes.ClientNode.EndWait | src/p2p/network.rs:28-35 | what follows on an Ack in time, and on none; the call is a Wake or an Expire step |
| Nodes.ClientNode.OnAnswer | src/p2p/peers.rs:56-87 | an offer leads to a Register with the relay offered, a refusal to a new NeedRelay; the call is a Take step |
| Nodes.Hub.FindRelay | src/hub_relay.rs:109-111 | some relay that is not at the client's address, if there is one |
| Nodes.Hub.OnMessage | src/hub_relay.rs:72-167 | what the hub does with a declaration or a request; the call is a ByHub step wherever the message can arrive |
| HandshakeProof.MoveKeepsInv | src/p2p/peers.rs:37-93 | every move of a node keeps the invariant on all packets and nodes |
| HandshakeProof.HubKeepsInv | src/hub_relay.rs:74-165 | every move of the hub keeps it |
| HandshakeProof.WakeIsEarned | src/p2p/dispatch.rs:34-39 | the Ack that wakes a node was for the packet it waits for, and that packet was processed |
| HandshakeProof.ConnectedMeansServed | src/p2p/peers.rs:37-93 | in every run: a connected node was offered its relay by the hub, which had that address and name in its table; the address is not its own; and then that relay processed its Register and entered its key; and the relay was sent the node's own address and name |
| HandshakeProof.PastDeclaringMeansDeclared | src/client.rs:196-216 | a node that asks for a relay or went further was entered in the hub's table before |
| HandshakePackets.PacketsMean | src/hub_relay.rs:105-165 | every packet of every run: it bears its sender's name, its addressee and its sender's signature; a notice and an offer follow an offer of that very entry to that very client, a refusal a table with no entry elsewhere, a PunchTheHole a notice that names its addressee |
| HandshakePackets.OfferTellsBoth | src/hub_relay.rs:112-147 | an offer sends the relay the client's address and name, and the client the relay's entry |
| HandshakePackets.NoticePunches | src/client.rs:149-165 | a node that is told of a client sends it a PunchTheHole |
| HandshakePackets.ExpiryRepeatsOrGivesUp | src/client.rs:212-216 | without an Ack in time a declaration is sent again under a new id, and a registration is given up |
| HandshakePackets.NewPacketsBearTheTime | src/p2p/peers.rs:47 | a packet bears the time at which it was sent |
| HandshakePackets.PruningIsExact | src/p2p/peers.rs:13-20 | pruning keeps exactly the entries seen less than 120 seconds ago, and touches nothing else |
| HandshakePackets.AckIsResolve | src/p2p/dispatch.rs:34-39 | an Ack does to a node's waiting what resolving does to its ack waiter |
| HandshakePackets.EntriesComeFromPackets | src/client.rs:99-110 | in every run: an entry of a node's table was loaded, or has address, name and key of a Register sent to it and is no relay; of the hub's table, of a BeNewRelay, and is one |
| HandshakePackets.RegistersOnce | src/p2p/peers.rs:72-93 | a node sends at most one Register in a run |
| HandshakePackets.EndsAreFinal | src/p2p/peers.rs:87-93 | a node that is connected, or has given up, stays so |
| HandshakeProgress.AlwaysUnderway | src/p2p/peers.rs:37-93 | in every state of every run: what a node waits for was sent, and its hub channel holds offers and refusals only |
| HandshakeProgress.ClientCanConnect | src/p2p/peers.rs:37-93 | every run in which the client has not given up can be continued until it is connected, whatever was lost or refused: to the relay it writes to, else to the first one offered in its channel, else to any entry of the hub's table at another address |
| Nat.SingleSend | src/nat_detector/util.rs:278-319 | up to two tries; an error answer ends them, anything else unusable is tried again |
| Nat.NatDetect | src/nat_detector/util.rs:132-256 | the sequence of probes and the verdict it leads to |
| Nat.BlockedIff | src/nat_detector/util.rs:144-147 | on any network: UDP is reported as blocked if and only if both tries of the first probe bring nothing usable, or the first an error |
| Nat.UnknownIff | src/nat_detector/util.rs:193-216 | on any network: the type is unknown if and only if the first probe is answered from behind a NAT, and then neither the second probe nor the probe of the other address brings anything |
| Nat.NoVerdictIff | src/nat_detector/util.rs:151-174 | on any network: there is no verdict if and only if an answer lacks the address that the next step needs |
| Nat.ProbeOnce | src/nat_detector/util.rs:288-317 | behind any NAT or firewall a repeated probe finds what the first one found |
| Nat.BehindNat | src/nat_detector/util.rs:193-252 | behind any box that changes the address, whatever its mapping, and with any of the server's addresses down: the verdict as a function of the filter, of what the two server addresses see, and of which addresses are down |
| Nat.NatIsClassified | src/nat_detector/util.rs:193-252 | a full cone, restricted cone, port-restricted cone or symmetric NAT is reported as what it is, and as nothing else |
| Nat.OneIpSuffices | src/nat_detector/util.rs:230-231 | a symmetric NAT needs no second outside IP address: it can tell destinations apart by port if and only if there are at most 65536 of them |
| Nat.WithoutNatSwapped | src/nat_detector/util.rs:182-192 | without a NAT, open hosts are called firewalled and firewalled hosts open, for any addresses of the server that are down |
| Nat.Reduce | src/nat_detector/util.rs:95-120 | the heaviest type among the verdicts and the last address found; an error if and only if there is no verdict |
| Nat.HeaviestIgnoresOrder | src/nat_detector/util.rs:114-117 | the type does not depend on the order of the verdicts |
| Nat.HeaviestIsLastInRanking | src/nat_detector/util.rs:65-76 | the type is the last one given in the ranking from Unknown up to OpenInternet |
| Nat.AddrIgnoresOrderIff | src/nat_detector/util.rs:104-106 | for every list of verdicts: the reported address is the same in every order if and only if no two servers saw different addresses |

## Left out

- Sockets, tasks, timers, standard input and printing: what they bring is a step, a parameter or nothing.
- IPv6 addresses: the sockets are bound to an IPv4 address (src/client.rs:27, src/hub_relay.rs:12); an IPv6 address inside a payload received from elsewhere is not modelled.
- Text.AddrRoundTrip: does not cover IPv6, whose text leaves out the flow label, so that such an address with one would not come back whole.
- Auth.Scheme.TamperingIsSeen: that a signature is accepted for one text only is assumed of the scheme, not proved of Ed25519.
- Text.ShowAddrInjective: does not cover IPv6, where two addresses that differ in the flow label share one text.
- The SQL engine: a statement is an update of a sequence or map; rows are scanned in the order of insertion; limits on the number of SQL variables are not modelled.
- Whether 32 bytes are a valid Ed25519 point: any 32 bytes are a key, so the reader never refuses one.
- The bytes of bincode and STUN messages, and packets that do not decode.
- Handlers for Connect and AskForAddr (src/client.rs:136-146, src/client.rs:168-191): nobody sends these payloads; the codec has them.
- Chat messages in the handshake model: they do not touch its state. The theorems that count copies and walks take the tables as fixed during the flood.
- Last hops and logs in the handshake model: the logs are modelled in the flood, the hub log and the message ids.
- Nodes.ClientNode: the loops of the main task (src/client.rs:212-216, src/p2p/peers.rs:38-71) are cut at their waits, because other tasks run meanwhile; each method is the stretch between two waits.
- Handshake: a node that gave up keeps handling packets, which the program, ending, does not; this only adds runs.
- Flood.Relay.OnClassic: logging by the dispatcher and relaying by the receive loop are one step, so that entries of two copies do not interleave in a log.
- HubLog.HubLogs: a refresh that is still running keeps the next one from starting, as the loop awaits it; the peers refresh before it is not shown there.
- MsgIds.SentIdsAreDistinct: a session is taken not to use up the 64-bit counter, and every stop to follow a flush that commits, for without one it fails (MsgIds.IdIsGivenAgain); a trim must leave, for each message it drains, one of the same address with an id as large in the log or the table.
- Verifying signatures on arrival: the program prints the outcome and goes on (src/p2p/dispatch.rs:68-72), so no step depends on it.
- Generating, saving and loading identity keys, the list of STUN servers, formatting of times, the `lightning` module.
