/** Where every byte of a frame stands, counted from its start: what `tcp_tx_packets` and `send_p` put on
    the wire (src/tcp/tcp.c:166-191, src/nic/nic.c:13-80), both checksums included, and what
    `tcp_rx_packets` takes off it (src/tcp/tcp.c:46-79), whatever the length of the TCP header. */
module WireLayout {
  import opened SeqArith
  import opened TcpTypes
  import opened Frame
  import TcpEndpoint
  import TcpSpec

  // ----- transmission -----

  function One(b: bool): nat { if b then 1 else 0 }

  /** The flags octet, bit by bit. */
  predicate FlagBits(b: u8, f: Flags) {
    b == 128 * One(f.cwr) + 64 * One(f.ece) + 32 * One(f.urg) + 16 * One(f.ack)
         + 8 * One(f.psh) + 4 * One(f.rst) + 2 * One(f.syn) + One(f.fin)
  }

  lemma FlagBitsRead(b: u8)
    ensures FlagBits(b, FlagsOf(b))
  {
    hide FlagsOf;
    FlagByteOnto(b);
    FlagBitsWritten(FlagsOf(b));
  }

  lemma FlagBitsWritten(f: Flags)
    ensures FlagBits(FlagByte(f), f)
  {
  }

  lemma SpelledAt(f: Bytes, off: nat, b: Bytes, lo: nat, x: u16)
    requires off + |b| <= |f| && f[off..off + |b|] == b
    requires lo + 2 <= |b| && b[lo..lo + 2] == Be16(x)
    ensures Spells(f, off + lo, x)
  {
    assert f[off + lo] == b[lo] == b[lo..lo + 2][0] && f[off + lo + 1] == b[lo + 1] == b[lo..lo + 2][1];
  }

  lemma Spelled4At(f: Bytes, off: nat, b: Bytes, lo: nat, x: u32)
    requires off + |b| <= |f| && f[off..off + |b|] == b
    requires lo + 4 <= |b| && b[lo..lo + 4] == Be32(x)
    ensures Spells4(f, off + lo, x)
  {
    assert b[lo..lo + 2] == b[lo..lo + 4][..2] == Be16(x / 0x1_0000);
    assert b[lo + 2..lo + 4] == b[lo..lo + 4][2..] == Be16(x % 0x1_0000);
    SpelledAt(f, off, b, lo, x / 0x1_0000);
    SpelledAt(f, off, b, lo + 2, x % 0x1_0000);
    FromHalves(f, off + lo, x);
  }

  lemma FromHalves(f: Bytes, i: nat, x: u32)
    requires Spells(f, i, x / 0x1_0000) && Spells(f, i + 2, x % 0x1_0000)
    ensures Spells4(f, i, x)
  {
  }

  lemma IpLayout(f: Bytes, h: Ipv4Hdr, sum: u16)
    requires 34 <= |f| && f[14..34] == IpBytes(h, sum)
    ensures f[14] == h.versionIhl && f[15] == h.tos && f[22] == h.ttl && f[23] == h.proto
    ensures Spells(f, 16, h.totalLength) && Spells(f, 18, h.packetId) && Spells(f, 20, h.fragmentOffset) && Spells(f, 24, sum)
    ensures Spells4(f, 26, h.src) && Spells4(f, 30, h.dst)
    ensures f[14..24] + [0, 0] + f[26..34] == IpBytes(h, 0)
  {
    var b := IpBytes(h, sum);
    IpParts(h, sum);
    hide IpBytes, Be16, Be32, Spells, Spells4;
    assert f[14..14 + |b|] == b;
    SpelledAt(f, 14, b, 2, h.totalLength);
    SpelledAt(f, 14, b, 4, h.packetId);
    SpelledAt(f, 14, b, 6, h.fragmentOffset);
    SpelledAt(f, 14, b, 10, sum);
    Spelled4At(f, 14, b, 12, h.src);
    Spelled4At(f, 14, b, 16, h.dst);
    assert f[14] == b[0] && f[15] == b[1] && f[22] == b[8] && f[23] == b[9];
    assert f[14..24] == b[..10] && f[26..34] == b[12..];
  }

  lemma IpParts(h: Ipv4Hdr, sum: u16)
    ensures var b := IpBytes(h, sum);
            && b[0] == h.versionIhl && b[1] == h.tos && b[8] == h.ttl && b[9] == h.proto
            && b[2..4] == Be16(h.totalLength) && b[4..6] == Be16(h.packetId) && b[6..8] == Be16(h.fragmentOffset)
            && b[10..12] == Be16(sum) && b[12..16] == Be32(h.src) && b[16..20] == Be32(h.dst)
            && b[..10] + [0, 0] + b[12..] == IpBytes(h, 0)
  {
    hide Be32;
    assert Be16(0) == [0, 0];
  }

  lemma TcpLayout(f: Bytes, h: TcpHdr, sum: u16)
    requires 54 <= |f| && f[34..54] == TcpBytes(h, sum)
    ensures Spells(f, 34, h.srcPort) && Spells(f, 36, h.dstPort) && Spells4(f, 38, h.sentSeq) && Spells4(f, 42, h.recvAck)
    ensures f[46] == h.dataOff && FlagBits(f[47], h.flags) && Spells(f, 48, h.rxWin) && Spells(f, 50, sum) && Spells(f, 52, h.urp)
    ensures f[34..50] + [0, 0] + f[52..54] == TcpBytes(h, 0)
  {
    var b := TcpBytes(h, sum);
    TcpParts(h, sum);
    hide TcpBytes, Be16, Be32, Spells, Spells4, FlagByte;
    assert f[34..34 + |b|] == b;
    SpelledAt(f, 34, b, 0, h.srcPort);
    SpelledAt(f, 34, b, 2, h.dstPort);
    Spelled4At(f, 34, b, 4, h.sentSeq);
    Spelled4At(f, 34, b, 8, h.recvAck);
    SpelledAt(f, 34, b, 14, h.rxWin);
    SpelledAt(f, 34, b, 16, sum);
    SpelledAt(f, 34, b, 18, h.urp);
    assert f[46] == b[12] && f[47] == b[13];
    FlagBitsWritten(h.flags);
    assert f[34..50] == b[..16] && f[52..54] == b[18..];
  }

  lemma TcpParts(h: TcpHdr, sum: u16)
    ensures var b := TcpBytes(h, sum);
            && b[0..2] == Be16(h.srcPort) && b[2..4] == Be16(h.dstPort) && b[4..8] == Be32(h.sentSeq) && b[8..12] == Be32(h.recvAck)
            && b[12] == h.dataOff && b[13] == FlagByte(h.flags)
            && b[14..16] == Be16(h.rxWin) && b[16..18] == Be16(sum) && b[18..20] == Be16(h.urp)
            && b[..16] + [0, 0] + b[18..] == TcpBytes(h, 0)
  {
    hide Be32, FlagByte;
    assert Be16(0) == [0, 0];
  }

  /** Every byte of every frame sent. Each checksum is that of the bytes around it in the frame, with its
      own two bytes zero; the TCP checksum reads what `payload` holds in place of the data. */
  lemma FrameBytes(nic: Nic, p: Packet)
    ensures var f, ip, tcp := FrameOf(nic, p), p.ip, p.tcp;
            && |f| == 54 + |p.data|
            && f[0..6] == nic.dstMac && f[6..12] == nic.mac && f[12] == 8 && f[13] == 0
            && f[14] == ip.versionIhl && f[15] == ip.tos && Spells(f, 16, ip.totalLength) && Spells(f, 18, ip.packetId)
            && Spells(f, 20, ip.fragmentOffset) && f[22] == ip.ttl && f[23] == ip.proto
            && Spells(f, 24, nic.ipSum(f[14..24] + [0, 0] + f[26..34]))
            && Spells4(f, 26, ip.src) && Spells4(f, 30, ip.dst)
            && Spells(f, 34, tcp.srcPort) && Spells(f, 36, tcp.dstPort) && Spells4(f, 38, tcp.sentSeq) && Spells4(f, 42, tcp.recvAck)
            && f[46] == tcp.dataOff && FlagBits(f[47], tcp.flags) && Spells(f, 48, tcp.rxWin)
            && Spells(f, 50, nic.tcpSum(f[14..34], f[34..50] + [0, 0] + f[52..54] + p.tail))
            && Spells(f, 52, tcp.urp) && f[54..] == p.data
  {
    hide FrameOf, IpBytes, TcpBytes, Spells, Spells4, FlagBits;
    var f := FrameOf(nic, p);
    FrameLayout(nic, p);
    EthLayout(f, nic.dstMac, nic.mac);
    IpLayout(f, p.ip, nic.ipSum(IpBytes(p.ip, 0)));
    TcpLayout(f, p.tcp, nic.tcpSum(SummedIp(nic, p), SummedRegion(p)));
  }

  lemma EthLayout(f: Bytes, dst: Mac, src: Mac)
    requires 14 <= |f| && f[0..14] == EthBytes(dst, src)
    ensures f[0..6] == dst && f[6..12] == src && f[12] == 8 && f[13] == 0
  {
    var e := EthBytes(dst, src);
    assert e[0..6] == dst && e[6..12] == src && e[12] == 8 && e[13] == 0;
    assert f[0..6] == f[0..14][0..6] && f[6..12] == f[0..14][6..12];
  }

  /** When `payload` holds the data, the TCP checksum is that of the segment as it stands in the frame. */
  lemma ChecksumOfSegment(nic: Nic, p: Packet)
    requires p.tail == p.data
    ensures var f := FrameOf(nic, p);
            |f| >= 54 && Spells(f, 50, nic.tcpSum(f[14..34], f[34..50] + [0, 0] + f[52..]))
  {
    hide FrameOf, Spells, Spells4, FlagBits;
    var f := FrameOf(nic, p);
    FrameBytes(nic, p);
    assert f[34..50] + [0, 0] + f[52..54] + f[54..] == f[34..50] + [0, 0] + f[52..];
  }

  // ----- reception -----

  /** What the filters let through. */
  predicate Addressed(mac: Mac, ip: u32, f: Bytes) {
    34 <= |f| && f[0..6] == mac && f[12] == 8 && f[13] == 0 && f[23] == 6 && Spells4(f, 30, ip)
  }

  /** `d` is the number in the upper four bits of `b`. */
  predicate HighHalf(b: u8, d: nat) { 16 * d <= b < 16 * d + 16 }

  lemma Reads(f: Bytes, i: nat)
    requires i + 2 <= |f|
    ensures Spells(f, i, U16At(f, i))
    ensures i + 4 <= |f| ==> Spells4(f, i, U32At(f, i))
  {
    if i + 4 <= |f| {
      var x: int := U16At(f, i);
      assert U32At(f, i) == x * 0x1_0000 + U16At(f, i + 2);
    }
  }

  lemma SpellsOnce(f: Bytes, i: nat, v: nat, w: nat)
    ensures Spells(f, i, v) && Spells(f, i, w) ==> v == w
    ensures Spells4(f, i, v) && Spells4(f, i, w) ==> v == w
  {
  }

  /** Every frame that can be read: it is dropped when a filter stops it, and otherwise each number is
      spelled where the standards put it behind a 20-byte IP header. The data begins four times the upper
      half of byte 46 behind the start of the TCP header, and ends where the IP header says, whatever
      bytes follow. */
  lemma DecodeReads(mac: Mac, ip: u32, f: Bytes)
    requires Readable(mac, ip, f)
    ensures Decode(mac, ip, f).Some? <==> Addressed(mac, ip, f)
    ensures Addressed(mac, ip, f) ==>
              var s := Decode(mac, ip, f).value;
              && 54 <= |f|
              && Spells4(f, 26, s.q.sip) && Spells(f, 34, s.q.sport) && s.q.dip == ip && Spells(f, 36, s.q.dport)
              && Spells4(f, 38, s.seqn) && Spells4(f, 42, s.ackn) && FlagBits(f[47], s.flags) && Spells(f, 48, s.win)
              && forall d: nat, total: nat :: HighHalf(f[46], d) && Spells(f, 16, total) ==>
                   34 + 4 * d <= 14 + total <= |f| && s.data == f[34 + 4 * d..14 + total]
  {
    hide Spells, Spells4, FlagBits, FlagsOf, U16At, U32At;
    EtherTypeRead(f);
    assert f[0..6] == f[..6];
    if |f| >= 34 {
      Reads(f, 30);
      SpellsOnce(f, 30, U32At(f, 30), ip);
    }
    if Addressed(mac, ip, f) {
      Reads(f, 16);
      Reads(f, 26);
      Reads(f, 34);
      Reads(f, 36);
      Reads(f, 38);
      Reads(f, 42);
      Reads(f, 48);
      FlagBitsRead(f[47]);
      forall d: nat, total: nat | HighHalf(f[46], d) && Spells(f, 16, total)
        ensures HeaderLen(f[46]) == 4 * d && U16At(f, 16) == total
      {
        SpellsOnce(f, 16, total, U16At(f, 16));
      }
    }
  }

  lemma EtherTypeRead(f: Bytes)
    ensures |f| >= 14 ==> (U16At(f, 12) == 0x0800 <==> f[12] == 8 && f[13] == 0)
  {
  }

  /** A frame of any layout: any bytes in the MAC source, the IP fields that are not read, the low half of
      the data offset and both checksums; a TCP header of `d` words with its options; padding behind the
      datagram. Its addressee takes exactly the header's numbers and the payload. */
  lemma AnyLayoutDecodes(mac: Mac, src: Mac, h: Ipv4Hdr, ipSum: u16, t: TcpHdr, tcpSum: u16, d: nat, low: nat,
                         options: Bytes, payload: Bytes, padding: Bytes)
    requires 5 <= d <= 15 && low < 16 && t.dataOff == 16 * d + low && |options| == 4 * (d - 5)
    requires h.proto == 6 && h.totalLength == 20 + 4 * d + |payload|
    ensures var f := EthBytes(mac, src) + IpBytes(h, ipSum) + TcpBytes(t, tcpSum) + options + payload + padding;
            && Readable(mac, h.dst, f)
            && Decode(mac, h.dst, f)
                 == Some(Segment(Quad(h.src, t.srcPort, h.dst, t.dstPort), t.sentSeq, t.recvAck, t.flags, t.rxWin, payload))
  {
    hide EthBytes, IpBytes, TcpBytes, FlagsOf, U16At, U32At, Be16;
    var f := EthBytes(mac, src) + IpBytes(h, ipSum) + TcpBytes(t, tcpSum) + options + payload + padding;
    assert f[0..14] == EthBytes(mac, src) && f[14..34] == IpBytes(h, ipSum) && f[34..54] == TcpBytes(t, tcpSum);
    assert f[34 + 4 * d..14 + h.totalLength] == payload;
    EthLayout(f, mac, src);
    EtherTypeRead(f);
    assert f[..6] == f[0..6];
    IpFields(f, h, ipSum);
    TcpFields(f, t, tcpSum);
    assert HeaderLen(f[46]) == 4 * d;
  }

  /** A frame that a filter stops leaves the endpoint as it is. */
  lemma DroppedFrames(e: TcpSpec.Endpoint, nic: Nic, f: Bytes, mem: Conn)
    requires Readable(nic.mac, nic.ip, f) && !Addressed(nic.mac, nic.ip, f)
    ensures TcpEndpoint.RxOne(e, nic, f, mem) == e
  {
    hide Decode, Addressed, TcpSpec.Rx;
    DecodeReads(nic.mac, nic.ip, f);
  }

  /** An addressed one is received as the segment it decodes to; so is a burst of one. */
  lemma AddressedFrames(e: TcpSpec.Endpoint, nic: Nic, f: Bytes, mem: Conn)
    requires Readable(nic.mac, nic.ip, f) && Addressed(nic.mac, nic.ip, f)
    ensures Decode(nic.mac, nic.ip, f).Some?
    ensures TcpEndpoint.RxOne(e, nic, f, mem) == TcpSpec.Rx(e, Decode(nic.mac, nic.ip, f).value, mem)
    ensures TcpEndpoint.AllReadable(nic, [f]) && TcpEndpoint.RxAll(e, nic, [f], [mem]) == TcpEndpoint.RxOne(e, nic, f, mem)
  {
    hide Decode, Addressed, TcpSpec.Rx, Readable;
    DecodeReads(nic.mac, nic.ip, f);
    BurstOfOne(e, nic, f, mem);
  }

  lemma BurstOfOne(e: TcpSpec.Endpoint, nic: Nic, f: Bytes, mem: Conn)
    requires Readable(nic.mac, nic.ip, f)
    ensures TcpEndpoint.AllReadable(nic, [f]) && TcpEndpoint.RxAll(e, nic, [f], [mem]) == TcpEndpoint.RxOne(e, nic, f, mem)
  {
    hide Readable, TcpEndpoint.RxOne;
    assert [f][..0] == [] && [mem][..0] == [];
    TcpEndpoint.RxAllNone(e, nic);
    TcpEndpoint.RxAllSnoc(e, nic, [f], [mem], 0);
    assert [f][..1] == [f] && [mem][..1] == [mem];
  }
}
