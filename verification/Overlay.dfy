/** The handshake and the flood together. */
module Overlay {
  import opened Types
  import Flood
  import FloodTheorems
  import Handshake
  import HandshakeProof

  /**
   * A node that is connected sends its chat messages to the relay it got from the hub. Whatever the
   * tables of the nodes are by then, however they change and whatever is lost, no copy comes back to it.
   */
  lemma ConnectedOriginatorIsSpared(cfg: Handshake.Config, tr: seq<Handshake.State>, acts: seq<Handshake.Action>,
                                    i: nat, client: Addr, gs: seq<Flood.Tables>, m: Message,
                                    logs: map<Addr, seq<Message>>, es: seq<Flood.Event>, c: Flood.Copy)
    requires Handshake.Run(cfg, tr, acts) && i < |tr|
    requires client in tr[i].nodes && tr[i].nodes[client].phase.Connected?
    requires m.headers.srcAddr == client
    requires |gs| == |es|
    requires c in Flood.All(FloodTheorems.AfterWith(gs, Flood.Start(m, tr[i].nodes[client].phase.relay, logs), es))
    ensures c.dest != client
  {
    var _, _ := HandshakeProof.ConnectedMeansServed(cfg, tr, acts, i, client);
    FloodTheorems.OriginatorIsSpared(gs, m, tr[i].nodes[client].phase.relay, logs, es, c);
  }
}
