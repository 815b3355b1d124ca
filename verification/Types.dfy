/** The values that travel on the wire and sit in the tables: addresses, peers, messages. */
module Types {

  type Byte = b: int | 0 <= b < 0x100
  type U16 = n: int | 0 <= n < 0x1_0000
  type U64 = n: int | 0 <= n < U64_SIZE

  const U64_SIZE: int := 0x1_0000_0000_0000_0000

  /** INTEGER columns of the database are signed: a statement given this or more fails. */
  const INTEGER_LIMIT: int := 0x8000_0000_0000_0000

  /** An Ed25519 verifying key, as its 32 bytes. */
  type Key = k: seq<Byte> | |k| == 32 witness seq(32, i => 0)

  datatype Option<+T> = None | Some(value: T)

  datatype Ip = Ip(a: Byte, b: Byte, c: Byte, d: Byte)

  /** An IPv4 socket address. */
  datatype Addr = Addr(ip: Ip, port: U16)

  /** "0.0.0.0:0", the destination written on a chat message for everybody. */
  const EVERYBODY := Addr(Ip(0, 0, 0, 0), 0)

  /** The hash of a verifying key, in hexadecimal. */
  type PeerId = string

  datatype PeerInfo = PeerInfo(
    id: PeerId,
    addr: Addr,
    username: string,
    lastSeen: U64,
    isRelay: bool,
    verifyingKey: Key)

  type PeerMap = map<PeerId, PeerInfo>

  datatype Headers = Headers(
    msgId: U64,
    srcAddr: Addr,
    srcUsername: string,
    dstAddr: Addr,
    dstUsername: string,
    time: U64,
    signature: seq<Byte>)

  datatype Payload =
    | Register(verifyingKey: Key)
    | Connect
    | BeNewRelay(verifyingKey: Key)
    | NeedRelay
    | NoRelayAvailable
    | PunchTheHole
    | Classic(txt: string)
    | AskForAddr(username: string)
    | PeerIs(info: PeerInfo)  // PeerInfo on the wire and in the table
    | RelayHasNewClient(peerAddr: Addr, peerId: string)
    | Ack(replyTo: U64)

  datatype Message = Message(headers: Headers, payload: Payload, lastHop: Addr)

  /** A message on its way to an address. */
  datatype Packet = Packet(msg: Message, dest: Addr)
}
