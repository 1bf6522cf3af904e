/** What every handler and command does to a record, written out: the numbers of each segment sent, every
    field of the record afterwards, and when nothing happens at all. Nothing here goes through the
    functions by which module TcpSpec computes it. */
module HandlerLaws {
  import opened SeqArith
  import opened TcpTypes
  import opened TcpSpec
  import Frame

  // ----- vocabulary -----

  /** How far `to` lies ahead of `from`, modulo 2^32. */
  function Ahead(from: u32, to: u32): nat { (to - from) % 0x1_0000_0000 }

  function Plus(n: u32, k: int): u32 { (n + k) % 0x1_0000_0000 }

  /** Section 3.3 of RFC 793, as far as the code goes: an empty segment lies in the window, or exactly at
      its edge when it is closed; a non-empty one needs an open window. */
  predicate Acceptable(c: Conn, s: Segment) {
    if s.data == [] then
      if c.rcv.wnd == 0 then s.seqn == c.rcv.nxt else Ahead(c.rcv.nxt, s.seqn) < c.rcv.wnd
    else
      c.rcv.wnd > 0
  }

  /** una =< ack =< nxt, as far as half the sequence space allows telling. */
  predicate Acknowledges(c: Conn, ackn: u32) {
    var all, part := Ahead(c.snd.una, c.snd.nxt), Ahead(c.snd.una, ackn);
    part <= all && part < 0x7fff_ffff && all - part < 0x7fff_ffff && all < 0xffff_fffe
  }

  /** The segment that a record `c` sends with the given numbers, flags and data. The checksum routine
      finds what `payload` holds behind the header. */
  function Written(c: Conn, seqn: u32, ackn: u32, flags: Flags, data: Bytes): Packet {
    Packet(Ipv4Hdr(0x45, c.ip.tos, (40 + |data|) % 0x1_0000, (c.ip.packetId + 1) % 0x1_0000, 0x4000, 64, 6, c.ip.src, c.ip.dst),
           TcpHdr(c.tcp.srcPort, c.tcp.dstPort, seqn, ackn, 0x50, flags, c.tcp.rxWin, c.tcp.urp),
           data,
           c.payload[..if |data| <= 100 then |data| else 100])
  }

  /** The record after it has sent `p`: its headers are those of `p`, without SYN and FIN. */
  function AfterSending(c: Conn, p: Packet, state: TcpState, una: u32, nxt: u32, rcvNxt: u32): Conn {
    Conn(c.q, state, c.snd.(una := una, nxt := nxt), c.rcv.(nxt := rcvNxt), p.ip,
         p.tcp.(flags := p.tcp.flags.(syn := false, fin := false)), c.payload)
  }

  predicate NothingHappens(c: Conn, r: Reply) {
    r.conn == c && r.sent == [] && r.printed == [] && r.fate == Stays && !r.established
  }

  lemma AcceptableIsChecked(c: Conn, s: Segment)
    ensures SegmentOk(c, s) <==> Acceptable(c, s)
  {
    if s.data == [] && c.rcv.wnd != 0 {
      EmptySegmentInWindow(c.rcv.nxt, c.rcv.wnd, s.seqn);
      WindowDistances(c.rcv.nxt, c.rcv.wnd, s.seqn);
    }
  }

  lemma AcknowledgesIsChecked(c: Conn, ackn: u32)
    ensures AckOk(c, ackn) <==> Acknowledges(c, ackn)
  {
    hide IsBetweenWrapped;
    AckAcceptableMeaning(c.snd.una, c.snd.nxt, ackn);
  }

  lemma PlusTwice(n: u32)
    ensures Add32(Add32(n, 1), 1) == Plus(n, 2)
  {
    ModOfSum(n + 1, 1);
  }

  /** One transmission: what goes out and what stays. */
  lemma Sent(c: Conn, data: Bytes)
    ensures TxPacket(c, data) == Written(c, c.snd.nxt, c.rcv.nxt, c.tcp.flags, data)
    ensures var f := c.tcp.flags;
            Tx(c, |data|) == AfterSending(c, TxPacket(c, data), c.state, c.snd.una,
                                          Plus(c.snd.nxt, (if f.syn then 1 else 0) + (if f.fin then 1 else 0)), c.rcv.nxt)
  {
    PlusTwice(c.snd.nxt);
  }

  // ----- SYN_RECV (src/tcp/tcp_syn_recv.c) -----

  /** An acceptable segment establishes or does nothing, and is never answered. An unacceptable one is
      answered exactly when it has SYN: by a SYN-ACK under the number before snd.nxt, with the data that
      came, and snd.nxt ends where it was. */
  lemma SynRecvLaw(c: Conn, s: Segment)
    ensures var r := HandleSynRecv(c, s);
            if Acceptable(c, s) then
              if Acknowledges(c, s.ackn) then r == Reply(c.(state := ESTABLISHED), [], [], Stays, true)
              else NothingHappens(c, r)
            else if s.flags.syn then
              var p := Written(c, Plus(c.snd.nxt, -1), c.rcv.nxt, c.tcp.flags.(syn := true), s.data);
              r == Reply(AfterSending(c, p, c.state, c.snd.una, Plus(c.snd.nxt, if c.tcp.flags.fin then 1 else 0), c.rcv.nxt),
                         [p], [], Stays, false)
            else NothingHappens(c, r)
  {
    hide SegmentOk, AckOk, Tx, TxPacket, Acceptable, Acknowledges, Plus, Sub32;
    AcceptableIsChecked(c, s);
    AcknowledgesIsChecked(c, s.ackn);
    Sent(WithFlags(WithSndNxt(c, Sub32(c.snd.nxt, 1)), c.tcp.flags.(syn := true)), s.data);
    BackAndForth(c.snd.nxt);
  }

  lemma BackAndForth(n: u32)
    ensures Sub32(n, 1) == Plus(n, -1)
    ensures Plus(Sub32(n, 1), 1) == Plus(n, 0) && Plus(Sub32(n, 1), 2) == Plus(n, 1)
  {
  }

  // ----- SYN_SENT (src/tcp/tcp_syn_sent.c) -----

  /** Every segment is answered by an ACK of the number after its own, with the data that came; it
      establishes exactly when it acknowledges, and then una is one beyond its acknowledgement. */
  lemma SynSentLaw(c: Conn, s: Segment)
    ensures var ack := Acknowledges(c, s.ackn);
            var p := Written(c, c.snd.nxt, Plus(s.seqn, 1), ACK, s.data);
            HandleSynSent(c, s) ==
              Reply(AfterSending(c, p, if ack then ESTABLISHED else c.state, if ack then Plus(s.ackn, 1) else c.snd.una,
                                 c.snd.nxt, Plus(s.seqn, 1)),
                    [p], [], Stays, false)
  {
    hide SegmentCheck, AckOk, Tx, TxPacket, Acknowledges;
    OwnNumberPasses(s.seqn, c.rcv.wnd);
    AcknowledgesIsChecked(c, s.ackn);
    SameSendSpace(c, WithRcvNxt(c, s.seqn), s.ackn);
    var ack := Acknowledges(c, s.ackn);
    var d := WithRcvNxt(c, s.seqn);
    var est := if ack then d.(state := ESTABLISHED, snd := d.snd.(una := Add32(s.ackn, 1))) else d;
    var e := WithRcvNxt(WithFlags(est, ACK), Add32(s.seqn, 1));
    Sent(e, s.data);
    assert HandleSynSent(c, s) == Sending(e, s.data);
    PlusNothing(c.snd.nxt);
  }

  lemma PlusNothing(n: u32)
    ensures Plus(n, 0) == n
  {
  }

  lemma SameSendSpace(c: Conn, d: Conn, ackn: u32)
    requires c.snd == d.snd
    ensures AckOk(c, ackn) <==> AckOk(d, ackn)
  {
  }

  lemma OwnNumberPasses(n: u32, wnd: u16)
    ensures SegmentCheck(n, wnd, 0, n)
  {
    if wnd != 0 {
      EmptySegmentInWindow(n, wnd, n);
      WindowDistances(n, wnd, n);
    }
  }

  // ----- ESTABLISHED (src/tcp/tcp_establish.c) -----

  /** An unacceptable segment does nothing. A FIN is answered by a FIN that acknowledges one beyond its
      number, with the data that came. An empty segment sets snd.nxt to its acknowledgement. Data is
      printed once and acknowledged, by an empty segment numbered as the data's acknowledgement says. */
  lemma EstablishLaw(c: Conn, s: Segment)
    ensures var r := HandleEstablish(c, s);
            if !Acceptable(c, s) then NothingHappens(c, r)
            else if s.flags.fin then
              var p := Written(c, c.snd.nxt, Plus(s.seqn, 1), FIN_ACK, s.data);
              r == Reply(AfterSending(c, p, LAST_ACK, c.snd.una, Plus(c.snd.nxt, 1), Plus(s.seqn, 1)), [p], [], Stays, false)
            else if s.data == [] then
              r == Reply(c.(snd := c.snd.(nxt := s.ackn)), [], [], Stays, false)
            else
              var p := Written(c, s.ackn, Plus(s.seqn, |s.data|), ACK, []);
              r == Reply(AfterSending(c, p, c.state, c.snd.una, s.ackn, Plus(s.seqn, |s.data|)), [p], [s.data], Stays, false)
  {
    hide SegmentOk, Tx, TxPacket, Acceptable;
    AcceptableIsChecked(c, s);
    Sent(WithFlags(WithRcvNxt(c.(state := CLOSE_WAIT), Add32(s.seqn, 1)), FIN_ACK), s.data);
    Sent(WithSndNxt(WithRcvNxt(WithFlags(c, ACK), Add32(s.seqn, |s.data|)), s.ackn), []);
    PlusNothing(s.ackn);
  }

  /** The same for acknowledgements and late segments, through the dispatch: an empty segment without FIN
      moves snd.nxt exactly when its number lies in the window; out of it an empty segment, FIN or not,
      changes nothing; and with a closed window neither does any data. */
  lemma LateSegments(c: Conn, s: Segment)
    requires c.state == ESTABLISHED
    ensures c.rcv.wnd > 0 && s.data == [] && !s.flags.fin ==>
              Handle(c, s) == Reply(if Ahead(c.rcv.nxt, s.seqn) < c.rcv.wnd then c.(snd := c.snd.(nxt := s.ackn)) else c,
                                    [], [], Stays, false)
    ensures c.rcv.wnd > 0 && s.data == [] && Ahead(c.rcv.nxt, s.seqn) >= c.rcv.wnd ==> NothingHappens(c, Handle(c, s))
    ensures c.rcv.wnd == 0 && s.data == [] && s.seqn != c.rcv.nxt ==> NothingHappens(c, Handle(c, s))
    ensures c.rcv.wnd == 0 && s.data != [] ==> NothingHappens(c, Handle(c, s))
  {
    hide HandleEstablish;
    EstablishLaw(c, s);
  }

  // ----- FIN_WAIT1, FIN_WAIT2, LAST_ACK and the rest -----

  /** An acceptable segment that acknowledges is answered by an empty ACK of the number after its own, and
      the flow leaves the table; anything else does nothing. */
  lemma FinWait1Law(c: Conn, s: Segment)
    ensures var r := HandleFinWait1(c, s);
            if Acceptable(c, s) && Acknowledges(c, s.ackn) then
              var p := Written(c, c.snd.nxt, Plus(s.seqn, 1), ACK, []);
              r == Reply(AfterSending(c, p, FIN_WAIT2, c.snd.una, c.snd.nxt, Plus(s.seqn, 1)), [p], [], Removed, false)
            else NothingHappens(c, r)
  {
    hide SegmentOk, AckOk, Tx, TxPacket, Acceptable, Acknowledges;
    AcceptableIsChecked(c, s);
    AcknowledgesIsChecked(c, s.ackn);
    Sent(WithRcvNxt(WithFlags(c.(state := FIN_WAIT2), ACK), Add32(s.seqn, 1)), []);
    PlusNothing(c.snd.nxt);
  }

  /** The acknowledgement need not be of our FIN, nor the segment a FIN: while less than 2^31 - 1 lies
      between una and snd.nxt, every acknowledgement between the two ends the flow, however old. */
  lemma OldAckCloses(c: Conn, s: Segment)
    requires c.state == FIN_WAIT1 && Acceptable(c, s) && Ahead(c.snd.una, c.snd.nxt) < 0x7fff_ffff
    ensures Handle(c, s).fate == Removed <==> Ahead(c.snd.una, s.ackn) <= Ahead(c.snd.una, c.snd.nxt)
    ensures Handle(c, s).fate != Removed ==> NothingHappens(c, Handle(c, s))
  {
    hide HandleFinWait1;
    FinWait1Law(c, s);
  }

  lemma FinWait2Law(c: Conn, s: Segment)
    ensures var r := HandleFinWait2(c, s);
            if Acceptable(c, s) then
              var p := Written(c, c.snd.nxt, Plus(s.seqn, 1), ACK, s.data);
              r == Reply(AfterSending(c, p, c.state, c.snd.una, c.snd.nxt, Plus(s.seqn, 1)), [p], [], Removed, false)
            else NothingHappens(c, r)
  {
    hide SegmentOk, Tx, TxPacket, Acceptable;
    AcceptableIsChecked(c, s);
    Sent(WithRcvNxt(WithFlags(c, ACK), Add32(s.seqn, 1)), s.data);
    PlusNothing(c.snd.nxt);
  }

  /** The dispatch: LAST_ACK frees on any segment at all, and a state without a handler ignores it. */
  lemma DispatchLaw(c: Conn, s: Segment)
    ensures c.state == LAST_ACK ==> Handle(c, s) == Reply(c.(state := CLOSE), [], [], RemovedAndFreed, false)
    ensures c.state == SYN_RECV ==> Handle(c, s) == HandleSynRecv(c, s)
    ensures c.state == SYN_SENT ==> Handle(c, s) == HandleSynSent(c, s)
    ensures c.state == ESTABLISHED ==> Handle(c, s) == HandleEstablish(c, s)
    ensures c.state == FIN_WAIT1 ==> Handle(c, s) == HandleFinWait1(c, s)
    ensures c.state == FIN_WAIT2 ==> Handle(c, s) == HandleFinWait2(c, s)
    ensures c.state in {TIME_WAIT, CLOSE, CLOSE_WAIT, LISTEN, CLOSING} ==> NothingHappens(c, Handle(c, s))
  {
    hide HandleSynRecv, HandleSynSent, HandleEstablish, HandleFinWait1, HandleFinWait2;
  }

  // ----- openings (src/tcp/tcp_listen.c, src/tcp/tcp.c:237-283) -----

  /** The record and the segment of an opening. What neither opening writes, the type of service, the
      urgent pointer, `payload` and the identification, is what the block held before. */
  function Opened(q: Quad, mem: Conn, state: TcpState, snd: SendSpace, rcv: RecvSpace, flags: Flags, data: Bytes): (Conn, Packet) {
    var c := Conn(q, state, snd, rcv, mem.ip.(src := q.dip, dst := q.sip),
                  mem.tcp.(srcPort := q.dport, dstPort := q.sport, rxWin := 64240), mem.payload);
    var p := Written(c, 0, rcv.nxt, flags, data);
    (AfterSending(c, p, state, 0, 1, rcv.nxt), p)
  }

  /** A bare SYN of an unknown flow, at its address: a SYN-ACK numbered 0 that acknowledges one beyond it,
      with the data that came. The record keeps the peer's window, which need not be our own. */
  lemma ListenLaw(e: Endpoint, s: Segment, mem: Conn)
    requires s.q !in e.table && s.q.dip == e.nicIp
    ensures s.flags != SYN ==> Rx(e, s, mem) == e
    ensures s.flags == SYN ==>
              var (c, p) := Opened(s.q, mem, SYN_RECV, SendSpace(0, 0, 64240, false, 0, 0, mem.snd.iss),
                                   RecvSpace(Plus(s.seqn, 1), s.win, false, s.seqn), SYN_ACK, s.data);
              Entering(e, Rx(e, s, mem), s.q, c, p)
  {
    hide Tx, TxPacket, ListenConn, Opened, Open, Entering;
    ListenRecord(s.q, s, mem);
    OpenEnters(e, s.q, ListenConn(s.q, s, mem), s.data);
  }

  lemma ListenRecord(q: Quad, s: Segment, mem: Conn)
    ensures Opened(q, mem, SYN_RECV, SendSpace(0, 0, 64240, false, 0, 0, mem.snd.iss),
                   RecvSpace(Plus(s.seqn, 1), s.win, false, s.seqn), SYN_ACK, s.data)
            == (Tx(ListenConn(q, s, mem), |s.data|), TxPacket(ListenConn(q, s, mem), s.data))
  {
    hide Tx, TxPacket;
    Sent(ListenConn(q, s, mem), s.data);
  }

  lemma OpenEnters(e: Endpoint, q: Quad, c: Conn, data: Bytes)
    ensures Entering(e, Open(e, q, c, data), q, Tx(c, |data|), TxPacket(c, data))
  {
    hide Tx, TxPacket;
  }

  /** A segment for another address changes nothing, known flow or not. */
  lemma ForeignLaw(e: Endpoint, s: Segment, mem: Conn)
    ensures s.q.dip != e.nicIp ==> Rx(e, s, mem) == e
  {
  }

  /** A connect of a known flow does nothing; of an unknown one it sends a bare SYN with both numbers 0. */
  lemma ConnectLaw(e: Endpoint, dip: u32, dport: u16, sport: u16, mem: Conn)
    ensures var q := Quad(dip, dport, e.nicIp, sport);
            var f := Step(e, Connect(dip, dport, sport, mem));
            if q in e.table then f == e
            else
              var (c, p) := Opened(q, mem, SYN_SENT, SendSpace(0, 0, 64240, false, 0, 0, 0), RecvSpace(0, 64240, false, 0), SYN, []);
              Entering(e, f, q, c, p)
  {
    hide Tx, TxPacket, ConnectConn, Opened, Open, Entering;
    var q := Quad(dip, dport, e.nicIp, sport);
    ConnectRecord(q, mem);
    OpenEnters(e, q, ConnectConn(q, mem), []);
  }

  lemma ConnectRecord(q: Quad, mem: Conn)
    ensures Opened(q, mem, SYN_SENT, SendSpace(0, 0, 64240, false, 0, 0, 0), RecvSpace(0, 64240, false, 0), SYN, [])
            == (Tx(ConnectConn(q, mem), 0), TxPacket(ConnectConn(q, mem), []))
  {
    hide Tx, TxPacket;
    Sent(ConnectConn(q, mem), []);
  }

  /** `f` has allocated one block more than `e`, sent `p`, and holds `c` under `q` if there were fewer than
      128 entries; otherwise the block is lost and the table as before. */
  predicate Entering(e: Endpoint, f: Endpoint, q: Quad, c: Conn, p: Packet) {
    var room := |e.table| < 128;
    && f.nicIp == e.nicIp && f.connectionCount == e.connectionCount && f.printed == e.printed
    && f.sent == e.sent + [p]
    && f.table == (if room then e.table[q := c] else e.table)
    && f.ledger == Ledger(e.ledger.mallocs + 1, e.ledger.freed, e.ledger.removed, e.ledger.refused + if room then 0 else 1)
  }

  /** What an answer that carries data leaves out: the checksum of the data. The routine reads the old
      content of the block instead, so it covers what is sent only if that is the same. */
  lemma EchoIsNotSummed(q: Quad, s: Segment, mem: Conn, sum: u16)
    requires 0 < |s.data| <= 100
    ensures var p := TxPacket(ListenConn(q, s, mem), s.data);
            |Frame.SummedRegion(p)| == |Frame.WireSegment(p, sum)| && Frame.SummedRegion(p)[..16] == Frame.WireSegment(p, sum)[..16]
            && Frame.SummedRegion(p)[18..] == Frame.WireSegment(p, sum)[18..]
            <==> mem.payload[..|s.data|] == s.data
  {
    var p := TxPacket(ListenConn(q, s, mem), s.data);
    Frame.ChecksumCoversSegment(p, sum);
  }

  // ----- commands (src/tcp/tcp.c:285-297, src/cli/cli.c:316-374) -----

  /** From every state one FIN goes out, and the record waits in FIN_WAIT1. */
  lemma CloseLaw(e: Endpoint, q: Quad)
    ensures q !in e.table ==> Step(e, Close(q)) == e
    ensures q in e.table ==>
              var c := e.table[q];
              var p := Written(c, c.snd.nxt, c.rcv.nxt, FIN_ACK, []);
              Step(e, Close(q)) ==
                e.(table := e.table[q := AfterSending(c, p, FIN_WAIT1, c.snd.una, Plus(c.snd.nxt, 1), c.rcv.nxt)],
                   sent := e.sent + [p])
  {
    hide Tx, TxPacket;
    if q in e.table {
      Sent(WithFlags(e.table[q], FIN_ACK), []);
      assert e.printed + Prints(q, []) == e.printed;
    }
  }

  /** In every state the data goes out under snd.nxt, which stays, and in front of the old `payload`. */
  lemma SendLaw(e: Endpoint, q: Quad, data: Bytes)
    requires |data| <= 100
    ensures q !in e.table ==> Step(e, Send(q, data)) == e
    ensures q in e.table ==>
              var c := e.table[q].(payload := data + e.table[q].payload[|data|..]);
              var p := Written(c, c.snd.nxt, c.rcv.nxt, PSH_ACK, data);
              p.tail == data
              && Step(e, Send(q, data)) ==
                   e.(table := e.table[q := AfterSending(c, p, c.state, c.snd.una, c.snd.nxt, c.rcv.nxt)], sent := e.sent + [p])
  {
    hide Tx, TxPacket;
    if q in e.table {
      var c := e.table[q].(payload := data + e.table[q].payload[|data|..]);
      Sent(WithFlags(c, PSH_ACK), data);
      PlusNothing(c.snd.nxt);
      assert e.printed + Prints(q, []) == e.printed;
      assert c.payload[..|data|] == data;
    }
  }

  // ----- what a reply does to the endpoint -----

  /** A segment of a known flow: its record, what was sent and what was printed are those of the reply; the
      entry goes with LAST_ACK and FIN_WAIT1 only, and the counter moves by one at most. */
  lemma KnownFlowLaw(e: Endpoint, s: Segment, mem: Conn)
    requires s.q in e.table && s.q.dip == e.nicIp
    ensures var r, f := Handle(e.table[s.q], s), Rx(e, s, mem);
            && f.nicIp == e.nicIp && f.sent == e.sent + r.sent
            && f.printed == e.printed + (if r.printed == [] then [] else [Print(s.q, s.data)])
            && f.table == (if r.fate == Stays then e.table[s.q := r.conn] else map k | k in e.table && k != s.q :: e.table[k])
            && f.connectionCount == (if r.established then (e.connectionCount + 1) % 0x1_0000_0000_0000_0000 else e.connectionCount)
            && f.ledger == Ledger(e.ledger.mallocs, e.ledger.freed + (if r.fate == RemovedAndFreed then 1 else 0),
                                  e.ledger.removed + (if r.fate == Removed then 1 else 0), e.ledger.refused)
  {
    PrintedIsData(e.table[s.q], s);
    hide Handle;
    var r := Handle(e.table[s.q], s);
    if r.printed != [] {
      assert [s.data][1..] == [] && Prints(s.q, [s.data]) == [Print(s.q, s.data)];
    }
    assert e.table - {s.q} == map k | k in e.table && k != s.q :: e.table[k];
  }

  lemma PrintedIsData(c: Conn, s: Segment)
    ensures Handle(c, s).printed == [] || Handle(c, s).printed == [s.data]
  {
  }
}
