/** Frames on the wire: the byte layout `tcp_tx_packets` and `send_p` produce
    (src/tcp/tcp.c:166-191, src/nic/nic.c:13-81) and the decoding at the head of
    `tcp_rx_packets` (src/tcp/tcp.c:46-79). */
module Frame {
  import opened SeqArith
  import opened TcpTypes

  type Mac = s: Bytes | |s| == 6 witness seq(6, _ => 0)

  /** `struct nic`, with the two checksum routines of the driver library as parameters: the first
      reads an IPv4 header, the second the header and the bytes from the TCP header onwards. */
  datatype Nic = Nic(ip: u32, mac: Mac, dstMac: Mac, ipSum: Bytes -> u16, tcpSum: (Bytes, Bytes) -> u16)

  const ETH_LEN: nat := 14
  const IP_LEN: nat := 20
  const TCP_LEN: nat := 20
  const HEADERS: nat := ETH_LEN + IP_LEN + TCP_LEN

  // ----- encoding -----

  function Be16(x: u16): (b: Bytes) ensures |b| == 2 { [x / 0x100, x % 0x100] }

  function Be32(x: u32): (b: Bytes) ensures |b| == 4 { Be16(x / 0x1_0000) + Be16(x % 0x1_0000) }

  function Bit(b: bool): nat { if b then 1 else 0 }

  /** Append a binary digit. */
  function Push(high: nat, digit: bool): nat { 2 * high + Bit(digit) }

  function High4(f: Flags): nat { Push(Push(Push(Bit(f.cwr), f.ece), f.urg), f.ack) }

  function FlagByte(f: Flags): u8 {
    Push(Push(Push(Push(High4(f), f.psh), f.rst), f.syn), f.fin)
  }

  predicate Odd(n: nat) { n % 2 == 1 }

  function FlagsOf(b: u8): Flags {
    var b1, h := b / 2, b / 16;
    Flags(Odd(h / 2 / 2 / 2), Odd(h / 2 / 2), Odd(h / 2), Odd(h), Odd(b1 / 2 / 2), Odd(b1 / 2), Odd(b1), Odd(b))
  }

  function EthBytes(dst: Mac, src: Mac): (b: Bytes) ensures |b| == ETH_LEN { dst + src + Be16(0x0800) }

  function IpBytes(h: Ipv4Hdr, sum: u16): (b: Bytes) ensures |b| == IP_LEN {
    [h.versionIhl, h.tos] + Be16(h.totalLength) + Be16(h.packetId) + Be16(h.fragmentOffset)
    + [h.ttl, h.proto] + Be16(sum) + Be32(h.src) + Be32(h.dst)
  }

  function TcpBytes(h: TcpHdr, sum: u16): (b: Bytes) ensures |b| == TCP_LEN {
    Be16(h.srcPort) + Be16(h.dstPort) + Be32(h.sentSeq) + Be32(h.recvAck)
    + [h.dataOff, FlagByte(h.flags)] + Be16(h.rxWin) + Be16(sum) + Be16(h.urp)
  }

  /** The IP header as transmitted, its own checksum computed over the header with a zero field. */
  function SummedIp(nic: Nic, p: Packet): Bytes { IpBytes(p.ip, nic.ipSum(IpBytes(p.ip, 0))) }

  /** The bytes the TCP checksum routine reads: the header with a zero checksum and what follows it
      in `struct connection`. */
  function SummedRegion(p: Packet): Bytes { TcpBytes(p.tcp, 0) + p.tail }

  /** The TCP segment as transmitted, with `sum` in its checksum field. */
  function WireSegment(p: Packet, sum: u16): Bytes { TcpBytes(p.tcp, sum) + p.data }

  function FrameOf(nic: Nic, p: Packet): Bytes {
    var ip := SummedIp(nic, p);
    EthBytes(nic.dstMac, nic.mac) + ip + WireSegment(p, nic.tcpSum(ip, SummedRegion(p)))
  }

  // ----- decoding -----

  function U16At(f: Bytes, off: nat): u16
    requires off + 2 <= |f|
  {
    var hi: int := f[off];
    hi * 0x100 + f[off + 1]
  }

  function U32At(f: Bytes, off: nat): u32
    requires off + 4 <= |f|
  {
    var hi: int := U16At(f, off);
    hi * 0x1_0000 + U16At(f, off + 2)
  }

  /** `(data_off >> 4) << 2` */
  function HeaderLen(dataOff: u8): nat { dataOff / 16 * 4 }

  /** Every byte `tcp_rx_packets` goes on to read lies in the frame, and the announced length covers
      the announced headers. */
  predicate Readable(mac: Mac, ip: u32, f: Bytes) {
    ETH_LEN <= |f|
    && (f[..6] == mac && U16At(f, 12) == 0x0800 ==>
          ETH_LEN + IP_LEN <= |f|
          && (U32At(f, 30) == ip && f[23] == 6 ==>
                HEADERS <= |f|
                && IP_LEN + HeaderLen(f[46]) <= U16At(f, 16)
                && ETH_LEN + U16At(f, 16) <= |f|))
  }

  /** Filter by MAC address, EtherType, destination address and protocol; then decode. */
  function Decode(mac: Mac, ip: u32, f: Bytes): Option<Segment>
    requires Readable(mac, ip, f)
  {
    if f[..6] != mac || U16At(f, 12) != 0x0800 then None
    else if U32At(f, 30) != ip || f[23] != 6 then None
    else
      var start := ETH_LEN + IP_LEN + HeaderLen(f[46]);
      var size := U16At(f, 16) - IP_LEN - HeaderLen(f[46]);
      Some(Segment(Quad(U32At(f, 26), U16At(f, 34), U32At(f, 30), U16At(f, 36)),
                   U32At(f, 38), U32At(f, 42), FlagsOf(f[47]), U16At(f, 48), f[start..start + size]))
  }

  // ----- laws -----

  lemma PushPop(high: nat, digit: bool)
    ensures Push(high, digit) / 2 == high && (Odd(Push(high, digit)) <==> digit)
  {
  }

  lemma PopPush(n: nat)
    ensures n == Push(n / 2, Odd(n))
  {
  }

  lemma High4Digits(f: Flags)
    ensures var h := High4(f);
            Odd(h) == f.ack && Odd(h / 2) == f.urg && Odd(h / 2 / 2) == f.ece && Odd(h / 2 / 2 / 2) == f.cwr
  {
    PushPop(Push(Push(Bit(f.cwr), f.ece), f.urg), f.ack);
    PushPop(Push(Bit(f.cwr), f.ece), f.urg);
    PushPop(Bit(f.cwr), f.ece);
  }

  /** The flags octet is read back as it was written. */
  lemma FlagsRoundTrip(f: Flags)
    ensures FlagsOf(FlagByte(f)) == f
  {
    var h := High4(f);
    PushPop(h, f.psh);
    PushPop(Push(h, f.psh), f.rst);
    PushPop(Push(Push(h, f.psh), f.rst), f.syn);
    PushPop(Push(Push(Push(h, f.psh), f.rst), f.syn), f.fin);
    var b := FlagByte(f);
    assert b / 16 == b / 2 / 2 / 2 / 2;
    High4Digits(f);
  }

  lemma NibbleRebuilt(h: nat)
    requires h < 16
    ensures Push(Push(Push(Bit(Odd(h / 2 / 2 / 2)), Odd(h / 2 / 2)), Odd(h / 2)), Odd(h)) == h
  {
    PopPush(h);
    PopPush(h / 2);
    PopPush(h / 2 / 2);
    assert Bit(Odd(h / 2 / 2 / 2)) == h / 2 / 2 / 2;
  }

  /** Every octet is the image of its flags. */
  lemma FlagByteOnto(b: u8)
    ensures FlagByte(FlagsOf(b)) == b
  {
    var b1, b2, b3 := b / 2, b / 2 / 2, b / 2 / 2 / 2;
    assert b / 16 == b3 / 2;
    NibbleRebuilt(b / 16);
    PopPush(b);
    PopPush(b1);
    PopPush(b2);
    PopPush(b3);
  }

  /** So comparing octets is comparing flags: the octet that `handle_tcp_listen` asks for is exactly a bare
      SYN, and the octets that the handlers and commands write are the five combinations they name. */
  lemma FlagOctets(b: u8)
    ensures b == 0x02 <==> FlagsOf(b) == SYN
    ensures b == 0x10 <==> FlagsOf(b) == ACK
    ensures b == 0x12 <==> FlagsOf(b) == SYN_ACK
    ensures b == 0x11 <==> FlagsOf(b) == FIN_ACK
    ensures b == 0x18 <==> FlagsOf(b) == PSH_ACK
  {
    hide FlagsOf;
    FlagByteOnto(b);
    assert FlagByte(SYN) == 0x02 && FlagByte(ACK) == 0x10 && FlagByte(SYN_ACK) == 0x12
           && FlagByte(FIN_ACK) == 0x11 && FlagByte(PSH_ACK) == 0x18;
    FlagsRoundTrip(SYN);
    FlagsRoundTrip(ACK);
    FlagsRoundTrip(SYN_ACK);
    FlagsRoundTrip(FIN_ACK);
    FlagsRoundTrip(PSH_ACK);
  }

  lemma Be16Read(x: u16)
    ensures U16At(Be16(x), 0) == x
  {
  }

  /** A field of a header that lies in the frame at `off` is read at its offset in the frame. */
  lemma U16Field(f: Bytes, off: nat, b: Bytes, lo: nat, x: u16)
    requires off + |b| <= |f| && f[off..off + |b|] == b
    requires lo + 2 <= |b| && b[lo..lo + 2] == Be16(x)
    ensures U16At(f, off + lo) == x
  {
    Be16Read(x);
    assert f[off + lo] == b[lo] == b[lo..lo + 2][0] && f[off + lo + 1] == b[lo + 1] == b[lo..lo + 2][1];
  }

  lemma U32Field(f: Bytes, off: nat, b: Bytes, lo: nat, x: u32)
    requires off + |b| <= |f| && f[off..off + |b|] == b
    requires lo + 4 <= |b| && b[lo..lo + 4] == Be32(x)
    ensures U32At(f, off + lo) == x
  {
    assert b[lo..lo + 2] == b[lo..lo + 4][..2] == Be16(x / 0x1_0000);
    assert b[lo + 2..lo + 4] == b[lo..lo + 4][2..] == Be16(x % 0x1_0000);
    U16Field(f, off, b, lo, x / 0x1_0000);
    U16Field(f, off, b, lo + 2, x % 0x1_0000);
  }

  lemma IpFields(f: Bytes, h: Ipv4Hdr, sum: u16)
    requires ETH_LEN + IP_LEN <= |f| && f[ETH_LEN..ETH_LEN + IP_LEN] == IpBytes(h, sum)
    ensures U16At(f, 16) == h.totalLength && f[23] == h.proto && U32At(f, 26) == h.src && U32At(f, 30) == h.dst
  {
    var b := IpBytes(h, sum);
    assert b[2..4] == Be16(h.totalLength) && b[12..16] == Be32(h.src) && b[16..20] == Be32(h.dst);
    U16Field(f, ETH_LEN, b, 2, h.totalLength);
    U32Field(f, ETH_LEN, b, 12, h.src);
    U32Field(f, ETH_LEN, b, 16, h.dst);
    assert f[23] == b[9];
  }

  lemma TcpFields(f: Bytes, h: TcpHdr, sum: u16)
    requires HEADERS <= |f| && f[ETH_LEN + IP_LEN..HEADERS] == TcpBytes(h, sum)
    ensures U16At(f, 34) == h.srcPort && U16At(f, 36) == h.dstPort && U32At(f, 38) == h.sentSeq
    ensures U32At(f, 42) == h.recvAck && f[46] == h.dataOff && FlagsOf(f[47]) == h.flags && U16At(f, 48) == h.rxWin
  {
    var b, off := TcpBytes(h, sum), ETH_LEN + IP_LEN;
    assert b[0..2] == Be16(h.srcPort) && b[2..4] == Be16(h.dstPort) && b[4..8] == Be32(h.sentSeq);
    assert b[8..12] == Be32(h.recvAck) && b[14..16] == Be16(h.rxWin);
    U16Field(f, off, b, 0, h.srcPort);
    U16Field(f, off, b, 2, h.dstPort);
    U32Field(f, off, b, 4, h.sentSeq);
    U32Field(f, off, b, 8, h.recvAck);
    U16Field(f, off, b, 14, h.rxWin);
    assert f[46] == b[12] && f[47] == b[13];
    FlagsRoundTrip(h.flags);
  }

  /** What the peer decodes from a packet. */
  function SegmentOf(p: Packet): Segment
    requires |p.data| <= 65495
  {
    Segment(Quad(p.ip.src, p.tcp.srcPort, p.ip.dst, p.tcp.dstPort),
            p.tcp.sentSeq, p.tcp.recvAck, p.tcp.flags, p.tcp.rxWin, p.data)
  }

  /** The constant fields `tcp_tx_packets` stamps, and the length of the datagram in the IP header. */
  predicate IsStamped(p: Packet) {
    p.tcp.dataOff == 0x50 && p.ip.proto == 6 && p.ip.totalLength == (IP_LEN + TCP_LEN + |p.data|) % 0x1_0000
  }

  lemma FrameLayout(nic: Nic, p: Packet)
    ensures var f := FrameOf(nic, p);
            && |f| == HEADERS + |p.data|
            && f[..6] == nic.dstMac
            && f[0..ETH_LEN] == EthBytes(nic.dstMac, nic.mac)
            && f[ETH_LEN..ETH_LEN + IP_LEN] == SummedIp(nic, p)
            && f[ETH_LEN + IP_LEN..HEADERS] == TcpBytes(p.tcp, nic.tcpSum(SummedIp(nic, p), SummedRegion(p)))
            && f[HEADERS..] == p.data
  {
    var f, eth, ip := FrameOf(nic, p), EthBytes(nic.dstMac, nic.mac), SummedIp(nic, p);
    var tcp := TcpBytes(p.tcp, nic.tcpSum(ip, SummedRegion(p)));
    assert f == eth + ip + tcp + p.data;
    assert f[..6] == eth[..6] == nic.dstMac;
  }

  lemma FrameFields(f: Bytes, p: Packet, dst: Mac, src: Mac, ipSum: u16, tcpSum: u16)
    requires IsStamped(p) && |p.data| <= 65495
    requires |f| == HEADERS + |p.data| && f[0..ETH_LEN] == EthBytes(dst, src)
    requires f[ETH_LEN..ETH_LEN + IP_LEN] == IpBytes(p.ip, ipSum)
    requires f[ETH_LEN + IP_LEN..HEADERS] == TcpBytes(p.tcp, tcpSum)
    ensures U16At(f, 12) == 0x0800 && U16At(f, 16) == IP_LEN + TCP_LEN + |p.data| && f[23] == 6 && f[46] == 0x50
    ensures U32At(f, 26) == p.ip.src && U32At(f, 30) == p.ip.dst
    ensures U16At(f, 34) == p.tcp.srcPort && U16At(f, 36) == p.tcp.dstPort
    ensures U32At(f, 38) == p.tcp.sentSeq && U32At(f, 42) == p.tcp.recvAck
    ensures FlagsOf(f[47]) == p.tcp.flags && U16At(f, 48) == p.tcp.rxWin
  {
    assert EthBytes(dst, src)[12..14] == Be16(0x0800);
    hide EthBytes, IpBytes, TcpBytes, FlagsOf, U16At, U32At, Be16;
    U16Field(f, 0, EthBytes(dst, src), 12, 0x0800);
    IpFields(f, p.ip, ipSum);
    TcpFields(f, p.tcp, tcpSum);
  }

  /** Frame round trip: the frame of a stamped packet of at most 65495 payload bytes is readable by
      every receiver; the one it is addressed to decodes exactly the packet's quad, numbers, flags,
      window and payload, and every other receiver drops it. */
  lemma FrameRoundTrip(nic: Nic, p: Packet, mac: Mac, ip: u32)
    requires IsStamped(p) && |p.data| <= 65495
    ensures Readable(mac, ip, FrameOf(nic, p))
    ensures Decode(mac, ip, FrameOf(nic, p)) ==
            if mac == nic.dstMac && ip == p.ip.dst then Some(SegmentOf(p)) else None
  {
    var f := FrameOf(nic, p);
    FrameLayout(nic, p);
    FrameFields(f, p, nic.dstMac, nic.mac, nic.ipSum(IpBytes(p.ip, 0)), nic.tcpSum(SummedIp(nic, p), SummedRegion(p)));
    assert f[HEADERS..HEADERS + |p.data|] == f[HEADERS..];
  }

  /** The region the TCP checksum covers is the transmitted segment, apart from the checksum field,
      if and only if `payload` holds what is being sent. */
  lemma ChecksumCoversSegment(p: Packet, sum: u16)
    ensures |SummedRegion(p)| == |WireSegment(p, sum)| && SummedRegion(p)[..16] == WireSegment(p, sum)[..16]
            && SummedRegion(p)[18..] == WireSegment(p, sum)[18..]
            <==> p.tail == p.data
  {
    var r, w := SummedRegion(p), WireSegment(p, sum);
    assert TcpBytes(p.tcp, 0)[..16] == TcpBytes(p.tcp, sum)[..16];
    assert TcpBytes(p.tcp, 0)[18..] == TcpBytes(p.tcp, sum)[18..];
    assert r[..16] == TcpBytes(p.tcp, 0)[..16] && w[..16] == TcpBytes(p.tcp, sum)[..16];
    assert r[18..] == TcpBytes(p.tcp, 0)[18..] + p.tail && w[18..] == TcpBytes(p.tcp, sum)[18..] + p.data;
    if r[18..] == w[18..] {
      assert p.tail == r[18..][2..] && p.data == w[18..][2..];
    }
  }

  // ----- `send_p` -----

  /** `rte_memcpy` into the packet buffer at an offset. */
  method Memcpy(pkt: array<u8>, off: nat, src: Bytes)
    requires off + |src| <= pkt.Length
    modifies pkt
    ensures pkt[..off + |src|] == old(pkt[..off]) + src
    ensures pkt[off + |src|..] == old(pkt[off + |src|..])
  {
    forall i | 0 <= i < |src| {
      pkt[off + i] := src[i];
    }
  }

  /** The frame builder: four copies into a fresh packet buffer, the last at the offset that the
      header's own `data_off` announces. */
  method SendP(nic: Nic, p: Packet) returns (pkt: array<u8>)
    requires p.tcp.dataOff == 0x50
    ensures fresh(pkt) && pkt[..] == FrameOf(nic, p)
  {
    hide IpBytes, TcpBytes, EthBytes, SummedRegion;
    pkt := new u8[ETH_LEN + TCP_LEN + IP_LEN + |p.data|];
    var ip := SummedIp(nic, p);
    var tcp := TcpBytes(p.tcp, nic.tcpSum(ip, SummedRegion(p)));
    var eth := EthBytes(nic.dstMac, nic.mac);
    Memcpy(pkt, 0, eth);
    assert pkt[..ETH_LEN] == eth;
    Memcpy(pkt, ETH_LEN, ip);
    Memcpy(pkt, ETH_LEN + IP_LEN, tcp);
    assert pkt[..HEADERS] == eth + ip + tcp;
    Memcpy(pkt, ETH_LEN + IP_LEN + HeaderLen(p.tcp.dataOff), p.data);
    assert pkt[..] == pkt[..HEADERS + |p.data|];
  }
}
