/** The records of headers/tcp/tcp.h as values. Addresses and ports are the numbers their
    network-order bytes spell, so the byte-order macros of the C code disappear. */
module TcpTypes {
  import opened SeqArith

  datatype Option<+T> = None | Some(value: T)

  datatype TcpState =
    | ESTABLISHED | SYN_SENT | SYN_RECV | FIN_WAIT1 | FIN_WAIT2 | TIME_WAIT
    | CLOSE | CLOSE_WAIT | LAST_ACK | LISTEN | CLOSING

  /** A flow as the receiver sees it: `sip`/`sport` are the peer, `dip`/`dport` this endpoint. */
  datatype Quad = Quad(sip: u32, sport: u16, dip: u32, dport: u16) {
    /** The same flow as the peer sees it. */
    function Reversed(): Quad { Quad(dip, dport, sip, sport) }
  }

  /** The eight bits of the TCP flags octet. */
  datatype Flags = Flags(cwr: bool, ece: bool, urg: bool, ack: bool, psh: bool, rst: bool, syn: bool, fin: bool)

  const NONE := Flags(false, false, false, false, false, false, false, false)
  const SYN := NONE.(syn := true)
  const ACK := NONE.(ack := true)
  const SYN_ACK := NONE.(syn := true, ack := true)
  const FIN_ACK := NONE.(fin := true, ack := true)
  const PSH_ACK := NONE.(psh := true, ack := true)

  datatype SendSpace = SendSpace(una: u32, nxt: u32, wnd: u16, up: bool, wl1: int, wl2: int, iss: u32)

  datatype RecvSpace = RecvSpace(nxt: u32, wnd: u16, up: bool, irs: u32)

  /** Header checksums are not stored here: no handler reads them back (see Frame). */
  datatype Ipv4Hdr = Ipv4Hdr(versionIhl: u8, tos: u8, totalLength: u16, packetId: u16, fragmentOffset: u16,
                             ttl: u8, proto: u8, src: u32, dst: u32)

  datatype TcpHdr = TcpHdr(srcPort: u16, dstPort: u16, sentSeq: u32, recvAck: u32, dataOff: u8,
                           flags: Flags, rxWin: u16, urp: u16)

  const PAYLOAD_SIZE: nat := 100

  type Bytes = seq<u8>

  /** The bytes of `b` from `i` on are the number `v`, high byte first: two of them, or four. */
  predicate Spells(b: Bytes, i: nat, v: nat) {
    i + 2 <= |b| && var high: int := b[i]; high * 256 + b[i + 1] == v
  }

  predicate Spells4(b: Bytes, i: nat, v: nat) {
    i + 4 <= |b| && var high: int := b[i];
    ((high * 256 + b[i + 1]) * 256 + b[i + 2]) * 256 + b[i + 3] == v
  }

  /** `char payload[100]` */
  type PayloadBuffer = s: Bytes | |s| == 100 witness seq(100, _ => 0)

  /** What a segment can carry in one IPv4 datagram: 65535 less the 20-byte IP header. */
  type SegmentData = s: Bytes | |s| <= 65515

  /** `struct connection` */
  datatype Conn = Conn(q: Quad, state: TcpState, snd: SendSpace, rcv: RecvSpace, ip: Ipv4Hdr, tcp: TcpHdr,
                       payload: PayloadBuffer)

  /** A received segment after `tcp_rx_packets` has decoded the frame. */
  datatype Segment = Segment(q: Quad, seqn: u32, ackn: u32, flags: Flags, win: u16, data: SegmentData)

  /** A transmission handed to `send_p`: the two stored headers and the payload. `tail` is the
      memory behind the TCP header that the checksum routine reads, the start of `payload`. */
  datatype Packet = Packet(ip: Ipv4Hdr, tcp: TcpHdr, data: Bytes, tail: Bytes)
}
