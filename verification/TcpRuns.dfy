/** What every run of one endpoint keeps, from the empty table, for every sequence of received
    segments and console commands. */
module TcpRuns {
  import opened SeqArith
  import opened TcpTypes
  import opened TcpSpec
  import Frame

  // ----- the invariant -----

  /** The states a stored connection can be in between two steps. */
  predicate LiveState(s: TcpState) {
    s == SYN_SENT || s == SYN_RECV || s == ESTABLISHED || s == FIN_WAIT1 || s == LAST_ACK
  }

  predicate Opening(c: Conn) { c.state == SYN_SENT || c.state == SYN_RECV }

  /** The stored headers answer the flow of the table key. */
  predicate HeadersReverse(q: Quad, c: Conn) {
    c.ip.src == q.dip && c.ip.dst == q.sip && c.tcp.srcPort == q.dport && c.tcp.dstPort == q.sport
  }

  predicate ConnInv(nicIp: u32, q: Quad, c: Conn) {
    && c.q == q && q.dip == nicIp && HeadersReverse(q, c)
    && LiveState(c.state)
    && !c.tcp.flags.syn && !c.tcp.flags.fin
    && (c.state != SYN_SENT ==> c.tcp.flags.ack)
    && c.snd.una <= 2
    && (Opening(c) ==> c.snd.una == 0 && c.snd.nxt == 1)
    && (c.state == SYN_RECV ==> c.rcv.nxt == Add32(c.rcv.irs, 1))
    && (c.state == SYN_SENT ==> c.rcv.wnd == WND)
  }

  predicate Conserved(e: Endpoint) {
    e.ledger.mallocs == |e.table| + e.ledger.freed + e.ledger.removed + e.ledger.refused
  }

  ghost predicate Inv(e: Endpoint) {
    && (forall q <- e.table :: ConnInv(e.nicIp, q, e.table[q]))
    && |e.table| <= TABLE_CAPACITY
    && Conserved(e)
  }

  // ----- transmissions -----

  function ControlCount(f: Flags): nat { (if f.syn then 1 else 0) + (if f.fin then 1 else 0) }

  /** `p` reports the state of the connection `c` that sent it: its sequence number plus its SYN and
      FIN is snd.nxt, its acknowledgement is rcv.nxt, and it travels the reversed flow. */
  predicate Reports(p: Packet, c: Conn) {
    && Add32(p.tcp.sentSeq, ControlCount(p.tcp.flags)) == c.snd.nxt
    && p.tcp.recvAck == c.rcv.nxt
    && p.ip.src == c.ip.src && p.ip.dst == c.ip.dst
    && p.tcp.srcPort == c.tcp.srcPort && p.tcp.dstPort == c.tcp.dstPort
  }

  /** The flow a packet belongs to, as its sender's table names it. */
  function FlowOf(p: Packet): Quad { Quad(p.ip.dst, p.tcp.dstPort, p.ip.src, p.tcp.srcPort) }

  lemma AddTwice(n: u32)
    ensures Add32(Add32(n, 1), 1) == Add32(n, 2) && Add32(n, 0) == n
  {
    hide Mod32;
    ModOfSum(n + 1, 1);
    AddNothing(n);
  }

  lemma AddNothing(n: u32)
    ensures Mod32(n) == n
  {
  }

  lemma StampedState(c: Conn, size: nat)
    ensures Stamped(c, size).snd == c.snd && Stamped(c, size).tcp.flags == c.tcp.flags
  {
  }

  lemma TxState(c: Conn, size: nat)
    ensures var d := Tx(c, size);
            d.snd == c.snd.(nxt := Add32(c.snd.nxt, ControlCount(c.tcp.flags)))
            && d.tcp.flags == c.tcp.flags.(syn := false, fin := false)
  {
    hide Stamped, Add32;
    AddTwice(c.snd.nxt);
    StampedState(c, size);
  }

  /** A SYN or FIN is counted by the transmission that carries it and by no later one. */
  lemma ControlBitsCountedOnce(c: Conn, data: Bytes, again: nat)
    ensures Reports(TxPacket(c, data), Tx(c, |data|)) && Frame.IsStamped(TxPacket(c, data))
    ensures TxPacket(c, data).tcp.flags == c.tcp.flags
    ensures Tx(c, |data|).snd.nxt == Add32(c.snd.nxt, ControlCount(c.tcp.flags))
    ensures Tx(Tx(c, |data|), again).snd == Tx(c, |data|).snd
  {
    TxState(c, |data|);
    TxState(Tx(c, |data|), again);
    assert Add32(Tx(c, |data|).snd.nxt, 0) == Tx(c, |data|).snd.nxt;
  }

  // ----- one handler -----

  /** Between una - 1 and nxt + 1 with una = 0 and nxt = 1 lie exactly the numbers 0 and 1. */
  lemma OpeningAcks(c: Conn, ackn: u32)
    requires c.snd.una == 0 && c.snd.nxt == 1
    ensures AckOk(c, ackn) <==> ackn == 0 || ackn == 1
  {
    AckAcceptableMeaning(0, 1, ackn);
  }

  /** The segment check of `handle_tcp_syn_sent` compares a number with itself. */
  lemma SynSentCheckPasses(n: u32, wnd: u16)
    requires wnd != 0
    ensures SegmentCheck(n, wnd, 0, n)
  {
    SegmentCheckVsRfc793(n, wnd, 0, n);
    WindowDistances(n, wnd, n);
  }

  /** What a handler or console command may do to a connection that satisfies the invariant. */
  ghost predicate GoodReply(nicIp: u32, q: Quad, c: Conn, r: Reply) {
    && (r.fate == Stays ==> ConnInv(nicIp, q, r.conn))
    && |r.sent| <= 1
    && (forall p <- r.sent :: p.tcp.flags.ack && Reports(p, r.conn) && FlowOf(p) == q && Frame.IsStamped(p))
    && (r.established <==> c.state == SYN_RECV && r.fate == Stays && r.conn.state == ESTABLISHED)
  }

  lemma ApplyKeeps(e: Endpoint, q: Quad, r: Reply)
    requires Inv(e) && q in e.table && GoodReply(e.nicIp, q, e.table[q], r)
    ensures Inv(Apply(e, q, r))
  {
    var t := Apply(e, q, r).table;
    if r.fate == Stays {
      assert t.Keys == e.table.Keys;
    } else {
      assert t.Keys == e.table.Keys - {q};
    }
    assert |t.Keys| == |t| && |e.table.Keys| == |e.table|;
  }

  lemma HandleGood(nicIp: u32, q: Quad, c: Conn, s: Segment)
    requires ConnInv(nicIp, q, c)
    ensures GoodReply(nicIp, q, c, Handle(c, s))
  {
    match c.state
    case SYN_RECV => SynRecvGood(nicIp, q, c, s);
    case SYN_SENT => SynSentGood(nicIp, q, c, s);
    case ESTABLISHED => EstablishGood(nicIp, q, c, s);
    case FIN_WAIT1 =>
      ControlBitsCountedOnce(WithRcvNxt(WithFlags(c.(state := FIN_WAIT2), ACK), Add32(s.seqn, 1)), [], 0);
    case _ =>
  }

  lemma SynRecvGood(nicIp: u32, q: Quad, c: Conn, s: Segment)
    requires ConnInv(nicIp, q, c) && c.state == SYN_RECV
    ensures GoodReply(nicIp, q, c, HandleSynRecv(c, s))
  {
    hide SegmentCheck, AckAcceptable, Sub32, Frame.IsStamped;
    assert Sub32(1, 1) == 0 by { BackOne(); }
    var d := WithFlags(WithSndNxt(c, Sub32(c.snd.nxt, 1)), c.tcp.flags.(syn := true));
    ControlBitsCountedOnce(d, s.data, 0);
  }

  lemma BackOne()
    ensures Sub32(1, 1) == 0
  {
  }

  lemma SynSentGood(nicIp: u32, q: Quad, c: Conn, s: Segment)
    requires ConnInv(nicIp, q, c) && c.state == SYN_SENT
    ensures GoodReply(nicIp, q, c, HandleSynSent(c, s))
    ensures |HandleSynSent(c, s).sent| == 1
  {
    SynSentCheckPasses(s.seqn, c.rcv.wnd);
    OpeningAcks(c, s.ackn);
    var d := WithRcvNxt(c, s.seqn);
    var est := if AckOk(d, s.ackn) then d.(state := ESTABLISHED, snd := d.snd.(una := Add32(s.ackn, 1))) else d;
    ControlBitsCountedOnce(WithRcvNxt(WithFlags(est, ACK), Add32(s.seqn, 1)), s.data, 0);
  }

  lemma EstablishGood(nicIp: u32, q: Quad, c: Conn, s: Segment)
    requires ConnInv(nicIp, q, c) && c.state == ESTABLISHED
    ensures GoodReply(nicIp, q, c, HandleEstablish(c, s))
  {
    ControlBitsCountedOnce(WithFlags(WithRcvNxt(c.(state := CLOSE_WAIT), Add32(s.seqn, 1)), FIN_ACK), s.data, 0);
    ControlBitsCountedOnce(WithSndNxt(WithRcvNxt(WithFlags(c, ACK), Add32(s.seqn, |s.data|)), s.ackn), [], 0);
  }

  lemma CommandsGood(nicIp: u32, q: Quad, c: Conn, data: Bytes)
    requires ConnInv(nicIp, q, c) && |data| <= PAYLOAD_SIZE
    ensures GoodReply(nicIp, q, c, ActiveClose(c))
    ensures GoodReply(nicIp, q, c, ActiveSend(c, data))
  {
    ControlBitsCountedOnce(WithFlags(c, FIN_ACK), [], 0);
    ControlBitsCountedOnce(WithFlags(c, PSH_ACK).(payload := data + c.payload[|data|..]), data, 0);
  }

  lemma OpenKeeps(e: Endpoint, q: Quad, c: Conn, data: Bytes)
    requires Inv(e) && q !in e.table && ConnInv(e.nicIp, q, Tx(c, |data|))
    ensures Inv(Open(e, q, c, data))
  {
    if |e.table| < TABLE_CAPACITY {
      var t := e.table[q := Tx(c, |data|)];
      assert t.Keys == e.table.Keys + {q};
      assert |t.Keys| == |t| && |e.table.Keys| == |e.table|;
    }
  }

  // ----- one step, every run -----

  lemma StepKeeps(e: Endpoint, ev: Event)
    requires Inv(e) && Allowed(ev)
    ensures Inv(Step(e, ev)) && Step(e, ev).nicIp == e.nicIp
  {
    hide Inv, Rx, TcpSpec.ActiveConnect, ConnInv, Handle, ActiveClose, ActiveSend;
    match ev
    case Receive(s, mem) => RxKeeps(e, s, mem);
    case Connect(dip, dport, sport, mem) => ConnectKeeps(e, dip, dport, sport, mem);
    case Close(q) =>
      if q in e.table {
        KeysAreQuads(e, q);
        CommandsGood(e.nicIp, q, e.table[q], []);
        ApplyKeeps(e, q, ActiveClose(e.table[q]));
      }
    case Send(q, data) =>
      if q in e.table {
        KeysAreQuads(e, q);
        CommandsGood(e.nicIp, q, e.table[q], data);
        ApplyKeeps(e, q, ActiveSend(e.table[q], data));
      }
  }

  lemma RxKeeps(e: Endpoint, s: Segment, mem: Conn)
    requires Inv(e)
    ensures Inv(Rx(e, s, mem)) && Rx(e, s, mem).nicIp == e.nicIp
  {
    hide Inv, ConnInv, Handle, ListenConn, Tx;
    if s.q.dip == e.nicIp {
      if s.q in e.table {
        KeysAreQuads(e, s.q);
        HandleGood(e.nicIp, s.q, e.table[s.q], s);
        ApplyKeeps(e, s.q, Handle(e.table[s.q], s));
      } else if s.flags == SYN {
        ListenInv(s.q, s, mem, e.nicIp);
        OpenKeeps(e, s.q, ListenConn(s.q, s, mem), s.data);
      }
    }
  }

  lemma ListenInv(q: Quad, s: Segment, mem: Conn, nicIp: u32)
    requires q.dip == nicIp
    ensures ConnInv(nicIp, q, Tx(ListenConn(q, s, mem), |s.data|))
  {
  }

  lemma ConnectKeeps(e: Endpoint, dip: u32, dport: u16, sport: u16, mem: Conn)
    requires Inv(e)
    ensures var f := TcpSpec.ActiveConnect(e, dip, dport, sport, mem); Inv(f) && f.nicIp == e.nicIp
  {
    hide Inv;
    var q := Quad(dip, dport, e.nicIp, sport);
    if q !in e.table {
      OpenKeeps(e, q, ConnectConn(q, mem), []);
    }
  }

  lemma {:induction false} RunKeeps(e: Endpoint, evs: seq<Event>)
    requires Inv(e) && AllAllowed(evs)
    ensures Inv(Run(e, evs)) && Run(e, evs).nicIp == e.nicIp
  {
    if evs != [] {
      RunKeeps(e, evs[..|evs| - 1]);
      StepKeeps(Run(e, evs[..|evs| - 1]), evs[|evs| - 1]);
    }
  }

  /** Every run from the empty table keeps the table consistent, conserves connection blocks, and
      leaves every stored connection in one of five states with no SYN or FIN pending. */
  lemma EveryRun(nicIp: u32, evs: seq<Event>)
    requires AllAllowed(evs)
    ensures var e := Run(EmptyEndpoint(nicIp), evs); Inv(e) && e.nicIp == nicIp
  {
    RunKeeps(EmptyEndpoint(nicIp), evs);
  }

  // ----- opening -----

  /** While a connection opens, exactly the acknowledgements 0 and 1 establish it: in SYN_RECV if the
      segment is acceptable, in SYN_SENT always, and there una becomes 1 or 2. */
  lemma OpeningEstablishes(nicIp: u32, q: Quad, c: Conn, s: Segment)
    requires ConnInv(nicIp, q, c)
    ensures c.state == SYN_RECV ==>
              (Handle(c, s).conn.state == ESTABLISHED <==> SegmentOk(c, s) && (s.ackn == 0 || s.ackn == 1))
    ensures c.state == SYN_SENT ==>
              (Handle(c, s).conn.state == ESTABLISHED <==> s.ackn == 0 || s.ackn == 1)
              && Handle(c, s).conn.rcv.nxt == Add32(s.seqn, 1)
              && (Handle(c, s).conn.state == ESTABLISHED ==> Handle(c, s).conn.snd.una == s.ackn + 1)
  {
    if Opening(c) {
      OpeningAcks(c, s.ackn);
    }
    if c.state == SYN_SENT {
      SynSentCheckPasses(s.seqn, c.rcv.wnd);
    }
  }

  // ----- transitions and the connection count -----

  /** The edges of the state machine between two steps, for a connection that stays in the table. */
  predicate Edge(a: TcpState, b: TcpState) {
    || a == b
    || (a == SYN_SENT && b == ESTABLISHED) || (a == SYN_RECV && b == ESTABLISHED)
    || (a == ESTABLISHED && b == LAST_ACK)
    || b == FIN_WAIT1
  }

  /** In one step at most one connection changes its state, and it follows an edge; a connection
      leaves the table only from FIN_WAIT1 or LAST_ACK. */
  lemma StepEdges(e: Endpoint, ev: Event, q: Quad)
    requires Inv(e) && Allowed(ev) && q in e.table
    ensures q in Step(e, ev).table ==> Edge(e.table[q].state, Step(e, ev).table[q].state)
    ensures q !in Step(e, ev).table ==> e.table[q].state == FIN_WAIT1 || e.table[q].state == LAST_ACK
    ensures q != Target(e, ev) ==> q in Step(e, ev).table && Step(e, ev).table[q] == e.table[q]
  {
    hide Handle, ActiveClose, ActiveSend, Edge, Step, Open;
    LiveInTable(e, q);
    if q != Target(e, ev) {
      OthersUntouched(e, ev, q);
      assert Edge(e.table[q].state, e.table[q].state) by { EdgeToSelf(e.table[q].state); }
    } else {
      TargetEdges(e, ev, q);
    }
  }

  lemma LiveInTable(e: Endpoint, q: Quad)
    requires Inv(e) && q in e.table
    ensures LiveState(e.table[q].state)
  {
  }

  lemma EdgeToSelf(s: TcpState)
    ensures Edge(s, s)
  {
  }

  lemma OthersUntouched(e: Endpoint, ev: Event, q: Quad)
    requires Allowed(ev) && q in e.table && q != Target(e, ev)
    ensures q in Step(e, ev).table && Step(e, ev).table[q] == e.table[q]
  {
    hide Handle, ActiveClose, ActiveSend, ListenConn, ConnectConn, Tx, TxPacket;
  }

  lemma TargetEdges(e: Endpoint, ev: Event, q: Quad)
    requires Allowed(ev) && q in e.table && q == Target(e, ev) && LiveState(e.table[q].state)
    ensures var f := Step(e, ev);
            if q in f.table then Edge(e.table[q].state, f.table[q].state)
            else e.table[q].state == FIN_WAIT1 || e.table[q].state == LAST_ACK
  {
    hide Handle, ActiveClose, ActiveSend, Open;
    var c := e.table[q];
    CommandEdges(c);
    if ev.Receive? {
      HandleEdges(c, ev.s);
    }
  }

  lemma CommandEdges(c: Conn)
    ensures ActiveClose(c).conn.state == FIN_WAIT1 && ActiveClose(c).fate == Stays
    ensures forall data: Bytes :: |data| <= PAYLOAD_SIZE ==>
              ActiveSend(c, data).conn.state == c.state && ActiveSend(c, data).fate == Stays
  {
  }

  lemma HandleEdges(c: Conn, s: Segment)
    requires LiveState(c.state)
    ensures var r := Handle(c, s);
            if r.fate == Stays then Edge(c.state, r.conn.state)
            else c.state == FIN_WAIT1 || c.state == LAST_ACK
  {
  }

  /** The flow an event is about. */
  function Target(e: Endpoint, ev: Event): Quad {
    match ev
    case Receive(s, _) => s.q
    case Connect(dip, dport, sport, _) => Quad(dip, dport, e.nicIp, sport)
    case Close(q) => q
    case Send(q, _) => q
  }

  /** Between `e` and `f` the connection of `q` was established passively. */
  predicate PassivelyOpened(e: Endpoint, f: Endpoint, q: Quad) {
    q in e.table && q in f.table && e.table[q].state == SYN_RECV && f.table[q].state == ESTABLISHED
  }

  ghost predicate SomePassiveOpen(e: Endpoint, f: Endpoint) { exists q :: PassivelyOpened(e, f, q) }

  /** The number of steps of a run in which a passive open reached ESTABLISHED. */
  ghost function PassiveOpens(e: Endpoint, evs: seq<Event>): nat
    requires AllAllowed(evs)
  {
    if evs == [] then 0
    else
      var n := |evs| - 1;
      PassiveOpens(e, evs[..n])
      + if SomePassiveOpen(Run(e, evs[..n]), Run(e, evs)) then 1 else 0
  }

  lemma StepCounts(e: Endpoint, ev: Event)
    requires Inv(e) && Allowed(ev)
    ensures var f := Step(e, ev);
            f.connectionCount == if SomePassiveOpen(e, f) then (e.connectionCount + 1) % U64 else e.connectionCount
  {
    var f, t := Step(e, ev), Target(e, ev);
    forall q | PassivelyOpened(e, f, q) ensures q == t {
      StepEdges(e, ev, q);
    }
    if t in e.table {
      if ev.Receive? && ev.s.q.dip == e.nicIp {
        HandleGood(e.nicIp, t, e.table[t], ev.s);
        assert Handle(e.table[t], ev.s).established <==> PassivelyOpened(e, f, t);
      } else {
        assert !PassivelyOpened(e, f, t);
      }
    }
  }

  lemma OneMore(n: nat)
    ensures (n % U64 + 1) % U64 == (n + 1) % U64
  {
  }

  /** `stats.connection_count`, an unsigned long, is the number of passive opens that reached
      ESTABLISHED. */
  lemma {:induction false} CountIsPassiveOpens(nicIp: u32, evs: seq<Event>)
    requires AllAllowed(evs)
    ensures Run(EmptyEndpoint(nicIp), evs).connectionCount == PassiveOpens(EmptyEndpoint(nicIp), evs) % U64
  {
    hide Step, Run, SomePassiveOpen, PassiveOpens, Inv;
    CountedLast(EmptyEndpoint(nicIp), evs);
    if evs != [] {
      var n := |evs| - 1;
      CountIsPassiveOpens(nicIp, evs[..n]);
      EveryRun(nicIp, evs[..n]);
      StepCounts(Run(EmptyEndpoint(nicIp), evs[..n]), evs[n]);
      OneMore(PassiveOpens(EmptyEndpoint(nicIp), evs[..n]));
    }
  }

  lemma CountedLast(e: Endpoint, evs: seq<Event>)
    requires AllAllowed(evs)
    ensures evs == [] ==> Run(e, evs) == e && PassiveOpens(e, evs) == 0
    ensures evs != [] ==>
              var n := |evs| - 1;
              && Run(e, evs) == Step(Run(e, evs[..n]), evs[n])
              && PassiveOpens(e, evs) == PassiveOpens(e, evs[..n])
                   + if SomePassiveOpen(Run(e, evs[..n]), Run(e, evs)) then 1 else 0
  {
    hide Step, SomePassiveOpen;
  }

  // ----- everything ever sent -----

  /** The opening segment of `active_connect`. */
  predicate OpeningSyn(p: Packet) {
    p.tcp.flags == SYN && p.tcp.sentSeq == 0 && p.tcp.recvAck == 0 && p.data == []
  }

  predicate WellSent(nicIp: u32, p: Packet) {
    && (p.tcp.flags.ack || OpeningSyn(p))
    && p.ip.src == nicIp
    && Frame.IsStamped(p)
  }

  /** The record that an event leaves behind, in the table or not. */
  function LeftBy(e: Endpoint, ev: Event): Option<Conn>
    requires Allowed(ev)
  {
    var q := Target(e, ev);
    if q in e.table then
      match ev
      case Receive(s, _) => Some(Handle(e.table[q], s).conn)
      case Connect(_, _, _, _) => Some(e.table[q])
      case Close(_) => Some(ActiveClose(e.table[q]).conn)
      case Send(_, data) => Some(ActiveSend(e.table[q], data).conn)
    else
      match ev
      case Receive(s, mem) => Some(Tx(ListenConn(q, s, mem), |s.data|))
      case Connect(_, _, _, mem) => Some(Tx(ConnectConn(q, mem), 0))
      case _ => None
  }

  /** `f` has sent one packet more than `e`. It acknowledges, unless it is the opening SYN; it travels
      the flow of the event; and it reports the record the event leaves behind: seq plus SYN and FIN is
      snd.nxt, ack is rcv.nxt. */
  ghost predicate SendsOne(e: Endpoint, f: Endpoint, q: Quad, left: Conn, opens: bool) {
    exists p :: f.sent == e.sent + [p] && WellSent(e.nicIp, p) && FlowOf(p) == q && Reports(p, left)
                && (OpeningSyn(p) ==> opens) && (q in f.table ==> f.table[q] == left)
  }

  /** One step sends at most one packet, whether its record stays in the table, leaves it or never
      enters it. */
  lemma StepSends(e: Endpoint, ev: Event)
    requires Inv(e) && Allowed(ev)
    ensures var f := Step(e, ev);
            f.sent == e.sent
            || (LeftBy(e, ev).Some? && SendsOne(e, f, Target(e, ev), LeftBy(e, ev).value, ev.Connect?))
  {
    var q := Target(e, ev);
    if q in e.table {
      if !ev.Connect? && (ev.Receive? ==> ev.s.q.dip == e.nicIp) {
        var r := if ev.Receive? then Handle(e.table[q], ev.s)
                 else if ev.Close? then ActiveClose(e.table[q]) else ActiveSend(e.table[q], ev.data);
        assert Step(e, ev) == Apply(e, q, r) && LeftBy(e, ev) == Some(r.conn);
        ReplySends(e.nicIp, q, e.table[q], ev, r);
        hide Step, Handle, ActiveClose, ActiveSend, LeftBy, SendsOne;
        ApplySends(e, q, r, ev.Connect?);
      }
    } else if ev.Receive? && ev.s.q.dip == e.nicIp && ev.s.flags == SYN {
      OpenSends(e, q, ListenConn(q, ev.s, ev.mem), ev.s.data, false);
    } else if ev.Connect? {
      OpenSends(e, q, ConnectConn(q, ev.mem), [], true);
    }
  }

  lemma OpenSends(e: Endpoint, q: Quad, c: Conn, data: Bytes, opens: bool)
    requires Inv(e) && q !in e.table && q.dip == e.nicIp && HeadersReverse(q, c)
    requires if opens then c.tcp.flags == SYN && c.snd.nxt == 0 && c.rcv.nxt == 0 && data == [] else c.tcp.flags == SYN_ACK
    ensures SendsOne(e, Open(e, q, c, data), q, Tx(c, |data|), opens)
  {
    OpeningSends(e.nicIp, q, c, data);
    hide Tx, TxPacket, Reports, Frame.IsStamped, ConnInv;
    assert Open(e, q, c, data).sent == e.sent + [TxPacket(c, data)];
  }

  lemma ApplySends(e: Endpoint, q: Quad, r: Reply, opens: bool)
    requires Inv(e) && q in e.table && GoodReply(e.nicIp, q, e.table[q], r)
    ensures var f := Apply(e, q, r); f.sent == e.sent || SendsOne(e, f, q, r.conn, opens)
  {
    var f := Apply(e, q, r);
    hide Reports, Frame.IsStamped, ConnInv;
    if r.sent == [] {
      assert f.sent == e.sent;
    } else {
      var p := r.sent[0];
      assert r.sent == [p] && p in r.sent;
      assert q.dip == e.nicIp by { assert ConnInv(e.nicIp, q, e.table[q]); ConnDip(e.nicIp, q, e.table[q]); }
      assert f.sent == e.sent + [p] && WellSent(e.nicIp, p);
    }
  }

  lemma ConnDip(nicIp: u32, q: Quad, c: Conn)
    requires ConnInv(nicIp, q, c)
    ensures q.dip == nicIp
  {
  }

  lemma ReplySends(nicIp: u32, q: Quad, c: Conn, ev: Event, r: Reply)
    requires ConnInv(nicIp, q, c) && Allowed(ev)
    requires match ev
             case Receive(s, _) => r == Handle(c, s)
             case Close(_) => r == ActiveClose(c)
             case Send(_, data) => r == ActiveSend(c, data)
             case Connect(_, _, _, _) => false
    ensures GoodReply(nicIp, q, c, r)
  {
    match ev
    case Receive(s, _) => HandleGood(nicIp, q, c, s);
    case Close(_) => CommandsGood(nicIp, q, c, []);
    case Send(_, data) => CommandsGood(nicIp, q, c, data);
  }

  lemma OpeningSends(nicIp: u32, q: Quad, c: Conn, data: Bytes)
    requires q.dip == nicIp && HeadersReverse(q, c)
    requires c.tcp.flags == SYN_ACK || (c.tcp.flags == SYN && c.snd.nxt == 0 && c.rcv.nxt == 0 && data == [])
    ensures var p := TxPacket(c, data);
            WellSent(nicIp, p) && FlowOf(p) == q && Reports(p, Tx(c, |data|)) && p.tcp.flags == c.tcp.flags
  {
    ControlBitsCountedOnce(c, data, 0);
  }

  /** Over every run: each packet ever sent acknowledges or is an opening SYN, carries this
      endpoint's address and is stamped the way `Frame.FrameRoundTrip` asks for. */
  lemma {:induction false} EverythingSent(nicIp: u32, evs: seq<Event>)
    requires AllAllowed(evs)
    ensures forall p <- Run(EmptyEndpoint(nicIp), evs).sent :: WellSent(nicIp, p)
  {
    if evs != [] {
      var n := |evs| - 1;
      EverythingSent(nicIp, evs[..n]);
      EveryRun(nicIp, evs[..n]);
      StepSends(Run(EmptyEndpoint(nicIp), evs[..n]), evs[n]);
    }
  }

  /** `active_send_data` copies what it sends behind the stored TCP header, so the checksum covers the
      transmitted segment. */
  lemma SendIsSummed(c: Conn, data: Bytes, sum: u16)
    requires |data| <= PAYLOAD_SIZE
    ensures |ActiveSend(c, data).sent| == 1
    ensures var p := ActiveSend(c, data).sent[0];
            p.data == data
            && Frame.SummedRegion(p)[..16] == Frame.WireSegment(p, sum)[..16]
            && Frame.SummedRegion(p)[18..] == Frame.WireSegment(p, sum)[18..]
  {
    var p := ActiveSend(c, data).sent[0];
    assert p.tail == (data + c.payload[|data|..])[..|data|] == data;
    Frame.ChecksumCoversSegment(p, sum);
  }

  // ----- duplicates of the opening SYN -----

  /** A payload-free SYN that repeats a sequence number, whatever its other bits, window and ack. */
  predicate Duplicates(q: Quad, irs: u32, ev: Event) {
    ev.Receive? && ev.s.q == q && ev.s.seqn == irs && ev.s.flags.syn && ev.s.data == []
  }

  function WithId(ip: Ipv4Hdr, k: nat): Ipv4Hdr { ip.(packetId := (ip.packetId + k) % 0x1_0000) }

  function Repeats(p: Packet, k: nat): seq<Packet> { seq(k, i requires 0 <= i < k => p.(ip := WithId(p.ip, i + 1))) }

  lemma OldSynRejected(irs: u32, wnd: u16)
    ensures !SegmentCheck(Add32(irs, 1), wnd, 0, irs)
  {
    hide SegmentCheck, InWindow, Add32, Sub32;
    SegmentCheckVsRfc793(Add32(irs, 1), wnd, 0, irs);
    WindowDistances(Add32(irs, 1), wnd, irs);
    JustBehind(irs);
  }

  lemma JustBehind(n: u32)
    ensures Sub32(n, Add32(n, 1)) == TWO32 - 1 && n != Add32(n, 1)
  {
  }

  /** What a payload-free SYN leaves behind: one SYN-ACK sent, nothing pending. */
  lemma ListenState(q: Quad, s: Segment, mem: Conn)
    ensures var filled := ListenConn(q, s, mem); var c := Tx(filled, 0);
            c == Stamped(filled, 0).(snd := filled.snd.(nxt := 1), tcp := Stamped(filled, 0).tcp.(flags := ACK))
  {
    assert Add32(0, 1) == 1;
  }

  lemma IdsAdd(ip: Ipv4Hdr, k: nat)
    ensures WithId(WithId(ip, k), 1) == WithId(ip, k + 1)
  {
    var m: int := ip.packetId;
    assert ((m + k) % 0x1_0000 + 1) % 0x1_0000 == (m + (k + 1)) % 0x1_0000;
  }

  /** A connection in SYN_RECV that has sent its SYN-ACK, stamped for an empty payload. */
  predicate Answered(c: Conn, irs: u32) {
    && c.state == SYN_RECV && c.snd.nxt == 1 && c.tcp.flags == ACK && c.rcv.nxt == Add32(irs, 1)
    && c.tcp.sentSeq == 0 && c.tcp.recvAck == c.rcv.nxt && c.tcp.dataOff == 0x50
    && c.ip.versionIhl == 0x45 && c.ip.totalLength == 40 && c.ip.fragmentOffset == 0x4000 && c.ip.ttl == 64 && c.ip.proto == 6
  }

  /** The SYN-ACK such a connection has sent. */
  function SynAckOf(c: Conn): Packet { Packet(c.ip, c.tcp.(flags := SYN_ACK), [], []) }

  lemma ListenAnswers(q: Quad, s: Segment, mem: Conn)
    requires s.data == []
    ensures var c := Tx(ListenConn(q, s, mem), 0);
            Answered(c, s.seqn) && TxPacket(ListenConn(q, s, mem), []) == SynAckOf(c)
  {
    ListenState(q, s, mem);
  }

  /** A duplicate is answered by the same SYN-ACK under the next IP identification. */
  lemma SynAckAgain(c: Conn, irs: u32, d: Segment)
    requires Answered(c, irs) && d.seqn == irs && d.flags.syn && d.data == []
    ensures var next := c.(ip := WithId(c.ip, 1));
            Handle(c, d) == Reply(next, [SynAckOf(next)], [], Stays, false) && Answered(next, irs)
  {
    Rewound(c, irs, d);
    var b := c.(snd := c.snd.(nxt := 0), tcp := c.tcp.(flags := SYN_ACK));
    Restamped(b);
    assert Add32(0, 1) == 1;
    assert c.payload[..0] == [];
    hide HandleSynRecv, Stamped, WithId, Add32;
  }

  /** The handler takes snd.nxt back by one and sets the SYN bit again. */
  lemma Rewound(c: Conn, irs: u32, d: Segment)
    requires Answered(c, irs) && d.seqn == irs && d.flags.syn && d.data == []
    ensures HandleSynRecv(c, d) == Sending(c.(snd := c.snd.(nxt := 0), tcp := c.tcp.(flags := SYN_ACK)), [])
  {
    OldSynRejected(irs, c.rcv.wnd);
    assert Sub32(1, 1) == 0;
    hide SegmentCheck, AckAcceptable, Sub32, Tx, TxPacket;
  }

  lemma Restamped(b: Conn)
    requires b.snd.nxt == 0 && b.tcp.sentSeq == 0 && b.tcp.recvAck == b.rcv.nxt && b.tcp.dataOff == 0x50
    requires b.ip.versionIhl == 0x45 && b.ip.totalLength == 40 && b.ip.fragmentOffset == 0x4000 && b.ip.ttl == 64 && b.ip.proto == 6
    ensures Stamped(b, 0) == b.(ip := WithId(b.ip, 1))
  {
  }

  /** One duplicate has no other effect on the endpoint at all: no entry is added, no block allocated. */
  lemma DuplicateStep(e: Endpoint, q: Quad, irs: u32, ev: Event)
    requires q in e.table && q.dip == e.nicIp && Answered(e.table[q], irs) && Duplicates(q, irs, ev)
    ensures var next := e.table[q].(ip := WithId(e.table[q].ip, 1));
            Step(e, ev) == e.(table := e.table[q := next], sent := e.sent + [SynAckOf(next)]) && Answered(next, irs)
  {
    SynAckAgain(e.table[q], irs, ev.s);
    hide Handle, WithId, Answered;
    assert Prints(q, []) == [] && e.printed + [] == e.printed;
  }

  function DuplicateCount(q: Quad, irs: u32, evs: seq<Event>): nat {
    if evs == [] then 0
    else
      var n := |evs| - 1;
      DuplicateCount(q, irs, evs[..n]) + if Duplicates(q, irs, evs[n]) then 1 else 0
  }

  /** What was sent on one flow. */
  function OnFlow(ps: seq<Packet>, q: Quad): seq<Packet> {
    if ps == [] then []
    else
      var n := |ps| - 1;
      OnFlow(ps[..n], q) + if FlowOf(ps[n]) == q then [ps[n]] else []
  }

  lemma OnFlowSnoc(ps: seq<Packet>, p: Packet, q: Quad)
    ensures OnFlow(ps + [p], q) == OnFlow(ps, q) + if FlowOf(p) == q then [p] else []
  {
    assert (ps + [p])[..|ps|] == ps;
  }

  /** The connection `c` of flow `q` has been asked again `k` times since `e` and has answered each time;
      on its flow nothing else was sent, and no other entry holds a record of the flow. */
  ghost predicate AskedAgain(e: Endpoint, f: Endpoint, q: Quad, c: Conn, k: nat) {
    && Inv(f) && f.nicIp == e.nicIp
    && q in f.table && f.table[q] == c.(ip := WithId(c.ip, k))
    && (forall r <- f.table :: f.table[r].q == q ==> r == q)
    && OnFlow(f.sent, q) == OnFlow(e.sent, q) + Repeats(SynAckOf(c), k)
  }

  lemma KeysAreQuads(e: Endpoint, q: Quad)
    requires Inv(e)
    ensures forall r <- e.table :: e.table[r].q == q ==> r == q
    ensures q in e.table ==> ConnInv(e.nicIp, q, e.table[q])
  {
    assert forall r <- e.table :: ConnInv(e.nicIp, r, e.table[r]);
  }

  lemma AnsweredSince(c: Conn, irs: u32, k: nat)
    requires Answered(c, irs)
    ensures Answered(c.(ip := WithId(c.ip, k)), irs)
  {
  }

  lemma AnswerFlow(nicIp: u32, q: Quad, c: Conn)
    requires ConnInv(nicIp, q, c)
    ensures FlowOf(SynAckOf(c)) == q && q.dip == nicIp
  {
  }

  lemma RepeatsSnoc(p: Packet, k: nat)
    ensures Repeats(p, k + 1) == Repeats(p, k) + [p.(ip := WithId(p.ip, k + 1))]
  {
  }

  lemma OneMoreDuplicate(e: Endpoint, f: Endpoint, q: Quad, irs: u32, c: Conn, k: nat, ev: Event)
    requires AskedAgain(e, f, q, c, k) && Answered(c, irs) && Duplicates(q, irs, ev)
    ensures AskedAgain(e, Step(f, ev), q, c, k + 1)
  {
    hide Step, Inv, ConnInv, WithId, Answered, Repeats, OnFlow;
    StepKeeps(f, ev);
    KeysAreQuads(f, q);
    KeysAreQuads(Step(f, ev), q);
    AnsweredSince(c, irs, k);
    AnswerFlow(f.nicIp, q, f.table[q]);
    DuplicateStep(f, q, irs, ev);
    IdsAdd(c.ip, k);
    var next := c.(ip := WithId(c.ip, k + 1));
    AnswerFlow(f.nicIp, q, Step(f, ev).table[q]);
    OnFlowSnoc(f.sent, SynAckOf(next), q);
    RepeatsSnoc(SynAckOf(c), k);
  }

  lemma OtherEventBetween(e: Endpoint, f: Endpoint, q: Quad, c: Conn, k: nat, ev: Event)
    requires AskedAgain(e, f, q, c, k) && Allowed(ev) && Target(f, ev) != q
    ensures AskedAgain(e, Step(f, ev), q, c, k)
  {
    hide Step, Inv, ConnInv, WithId, Repeats, OnFlow, Reports, Target;
    StepKeeps(f, ev);
    KeysAreQuads(Step(f, ev), q);
    OthersUntouched(f, ev, q);
    StepSends(f, ev);
    if Step(f, ev).sent != f.sent {
      var p :| Step(f, ev).sent == f.sent + [p] && FlowOf(p) == Target(f, ev);
      OnFlowSnoc(f.sent, p, q);
    }
  }

  /** Any number `k` of duplicates of the opening SYN, with any events about other flows in between: `k`
      more SYN-ACKs on the flow, equal to the first in every field but the IP identification; the
      connection changes in that field alone, and no other entry for the flow appears. */
  lemma {:induction false} DuplicateSyns(e: Endpoint, q: Quad, irs: u32, evs: seq<Event>)
    requires Inv(e) && q in e.table && Answered(e.table[q], irs) && AllAllowed(evs)
    requires forall i :: 0 <= i < |evs| ==> Duplicates(q, irs, evs[i]) || Target(e, evs[i]) != q
    ensures AskedAgain(e, Run(e, evs), q, e.table[q], DuplicateCount(q, irs, evs))
  {
    hide Step, Inv, ConnInv, WithId, Answered, AskedAgain;
    if evs == [] {
      NotAsked(e, q);
    } else {
      var n := |evs| - 1;
      var f, k := Run(e, evs[..n]), DuplicateCount(q, irs, evs[..n]);
      DuplicateSyns(e, q, irs, evs[..n]);
      if Duplicates(q, irs, evs[n]) {
        OneMoreDuplicate(e, f, q, irs, e.table[q], k, evs[n]);
      } else {
        AskedAgainNic(e, f, q, e.table[q], k);
        SameTarget(e, f, evs[n]);
        OtherEventBetween(e, f, q, e.table[q], k, evs[n]);
      }
    }
  }

  lemma NotAsked(e: Endpoint, q: Quad)
    requires Inv(e) && q in e.table
    ensures AskedAgain(e, e, q, e.table[q], 0)
  {
    hide Inv, ConnInv;
    KeysAreQuads(e, q);
    var c := e.table[q];
    assert WithId(c.ip, 0) == c.ip && Repeats(SynAckOf(c), 0) == [];
  }

  lemma AskedAgainNic(e: Endpoint, f: Endpoint, q: Quad, c: Conn, k: nat)
    requires AskedAgain(e, f, q, c, k)
    ensures f.nicIp == e.nicIp
  {
  }

  lemma SameTarget(e: Endpoint, f: Endpoint, ev: Event)
    requires f.nicIp == e.nicIp
    ensures Target(f, ev) == Target(e, ev)
  {
  }

  /** From the opening itself: a payload-free SYN of an unknown flow finds room in the table; then any
      number of duplicates arrive, and anything happens on other flows. */
  lemma OpeningThenDuplicates(e: Endpoint, s: Segment, mem: Conn, evs: seq<Event>)
    requires Inv(e) && s.q !in e.table && |e.table| < TABLE_CAPACITY && s.q.dip == e.nicIp && s.flags == SYN && s.data == []
    requires AllAllowed(evs)
    requires forall i :: 0 <= i < |evs| ==> Duplicates(s.q, s.seqn, evs[i]) || Target(e, evs[i]) != s.q
    ensures var c, k := Tx(ListenConn(s.q, s, mem), 0), DuplicateCount(s.q, s.seqn, evs);
            var f := Run(Rx(e, s, mem), evs);
            && s.q in f.table && f.table[s.q] == c.(ip := WithId(c.ip, k))
            && OnFlow(f.sent, s.q) == OnFlow(e.sent, s.q) + [SynAckOf(c)] + Repeats(SynAckOf(c), k)
            && (forall r <- f.table :: f.table[r].q == s.q ==> r == s.q)
            && SynAckOf(c).tcp.flags == SYN_ACK && SynAckOf(c).tcp.sentSeq == 0
            && SynAckOf(c).tcp.recvAck == Add32(s.seqn, 1)
  {
    hide Run, Rx, Target, Answered, ListenConn, Tx, TxPacket, WithId, Repeats, OnFlow, Inv, ConnInv, SynAckOf, Duplicates;
    var c, g := Tx(ListenConn(s.q, s, mem), 0), Rx(e, s, mem);
    ListenAnswers(s.q, s, mem);
    OpenedByRx(e, s, mem);
    KeysAreQuads(g, s.q);
    AnswerFlow(g.nicIp, s.q, c);
    OnFlowSnoc(e.sent, SynAckOf(c), s.q);
    forall i | 0 <= i < |evs| ensures Duplicates(s.q, s.seqn, evs[i]) || Target(g, evs[i]) != s.q {
      SameTarget(e, g, evs[i]);
    }
    DuplicateSyns(g, s.q, s.seqn, evs);
    AnswerFields(c, s.seqn);
  }

  lemma OpenedByRx(e: Endpoint, s: Segment, mem: Conn)
    requires Inv(e) && s.q !in e.table && |e.table| < TABLE_CAPACITY && s.q.dip == e.nicIp && s.flags == SYN && s.data == []
    ensures var c, g := Tx(ListenConn(s.q, s, mem), 0), Rx(e, s, mem);
            && Inv(g) && g.nicIp == e.nicIp && s.q in g.table && g.table[s.q] == c
            && g.sent == e.sent + [TxPacket(ListenConn(s.q, s, mem), [])]
  {
    hide Inv, ListenConn, Tx, TxPacket;
    StepKeeps(e, Receive(s, mem));
  }

  lemma AnswerFields(c: Conn, irs: u32)
    requires Answered(c, irs)
    ensures var h := SynAckOf(c).tcp; h.flags == SYN_ACK && h.sentSeq == 0 && h.recvAck == Add32(irs, 1)
  {
  }
}
