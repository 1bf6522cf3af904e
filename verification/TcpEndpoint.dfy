/** One endpoint as the C code has it: a hash table of mutable connection records, handlers that
    update a record field by field and transmit in between, and the console commands. Every method
    is proved equal to its specification function in TcpSpec; the class invariant adds what only
    shows on the heap: who owns which block, and that no block is used or freed after `rte_free`. */
module TcpEndpoint {
  import opened SeqArith
  import opened TcpTypes
  import opened TcpSpec
  import opened Frame
  import opened Ownership

  /** `struct connection` */
  class Connection {
    var q: Quad
    var tcpState: TcpState
    var snd: SendSpace
    var rcv: RecvSpace
    var ip: Ipv4Hdr
    var tcp: TcpHdr
    var payload: PayloadBuffer

    /** `rte_malloc` does not clear the block: `mem` is whatever it holds. */
    constructor (mem: Conn)
      ensures View() == mem
    {
      q, tcpState, snd, rcv, ip, tcp, payload := mem.q, mem.state, mem.snd, mem.rcv, mem.ip, mem.tcp, mem.payload;
    }

    function View(): Conn
      reads this
    {
      Conn(q, tcpState, snd, rcv, ip, tcp, payload)
    }
  }

  /** `struct tcp` */
  class Tcp {
    const nic: Nic
    var table: map<Quad, Connection>
    var connectionCount: nat
    /** Every frame given to the transmit queue. */
    var wire: seq<Bytes>

    // The history of the run.
    ghost var sent: seq<Packet>
    ghost var printed: seq<Print>
    // Every block `rte_malloc` handed out, and where those that left the table went.
    ghost var heap: set<Connection>
    ghost var freed: set<Connection>
    ghost var removed: set<Connection>
    ghost var refused: set<Connection>
    /** The records that were counted in `connectionCount`. */
    ghost var counted: set<Connection>

    ghost function CurrentBooks(): Books<Connection>
      reads this, table.Values
    {
      Books(table, map k | k in table :: table[k].View(), heap, freed, removed, refused, counted, connectionCount)
    }

    /** The books balance, and the wire carried exactly the frames of the packets sent. */
    ghost predicate Valid()
      reads this, table.Values
    {
      Balanced(CurrentBooks()) && wire == Frames(nic, sent)
    }

    /** The endpoint as a value. */
    ghost function State(): Endpoint
      reads this, table.Values
    {
      Public(CurrentBooks(), nic.ip, sent, printed)
    }

    constructor (nic: Nic)
      ensures Valid() && this.nic == nic && State() == EmptyEndpoint(nic.ip) && heap == {}
    {
      this.nic := nic;
      table, connectionCount, wire := map[], 0, [];
      sent, printed, heap, freed, removed, refused, counted := [], [], {}, {}, {}, {}, {};
    }

    /** `tcp_tx_packets` */
    method TcpTxPackets(c: Connection, data: Bytes)
      requires wire == Frames(nic, sent)
      modifies c, `wire, `sent
      ensures c.View() == Tx(old(c.View()), |data|)
      ensures sent == old(sent) + [TxPacket(old(c.View()), data)] && wire == Frames(nic, sent)
    {
      hide Add32;
      c.tcp := c.tcp.(sentSeq := c.snd.nxt);
      c.tcp := c.tcp.(recvAck := c.rcv.nxt);
      c.tcp := c.tcp.(dataOff := 0x50);
      var size := (20 + 20 + |data|) % 0x1_0000;
      c.ip := c.ip.(fragmentOffset := 0x4000);
      c.ip := c.ip.(packetId := (c.ip.packetId + 1) % 0x1_0000);
      c.ip := c.ip.(ttl := 64, versionIhl := 0x45, proto := 6, totalLength := size);
      assert c.View() == Stamped(old(c.View()), |data|);
      var p := Packet(c.ip, c.tcp, data, c.payload[..if |data| <= PAYLOAD_SIZE then |data| else PAYLOAD_SIZE]);
      var pkt := SendP(nic, p);
      wire, sent := wire + [pkt[..]], sent + [p];
      if c.tcp.flags.syn {
        c.snd := c.snd.(nxt := Add32(c.snd.nxt, 1));
        c.tcp := c.tcp.(flags := c.tcp.flags.(syn := false));
      }
      if c.tcp.flags.fin {
        c.snd := c.snd.(nxt := Add32(c.snd.nxt, 1));
        c.tcp := c.tcp.(flags := c.tcp.flags.(fin := false));
      }
    }

    // ----- rte_hash and rte_malloc -----

    /** `rte_hash_add_key_data`: a full table refuses, and no caller looks at the result. */
    method AddKey(k: Quad, c: Connection)
      requires |table| <= TABLE_CAPACITY && k !in table
      modifies `table, `refused
      ensures if |old(table)| < TABLE_CAPACITY then table == old(table)[k := c] && refused == old(refused)
              else table == old(table) && refused == old(refused) + {c}
    {
      if |table| < TABLE_CAPACITY {
        table := table[k := c];
      } else {
        refused := refused + {c};
      }
    }

    /** `rte_hash_del_key`: an unknown key changes nothing. */
    method DelKey(k: Quad)
      modifies `table
      ensures table == old(table) - {k}
    {
      table := table - {k};
    }

    /** `rte_free`, which must be given an allocated block, and only once. */
    ghost method Free(c: Connection)
      requires c in heap && c !in freed
      modifies `freed
      ensures freed == old(freed) + {c}
    {
      freed := freed + {c};
    }

    ghost predicate Usable(c: Connection)
      reads this
    {
      c in heap && c !in freed && wire == Frames(nic, sent)
    }

    // ----- the handlers -----

    /** The reply `r` to an event on the record `c` of flow `q` was carried out: on the record, on
        the trace, on the counters and on the ownership of the block. */
    twostate predicate Replied(new c: Connection, new q: Quad, new r: Reply)
      reads this
    {
      && sent == old(sent) + r.sent && wire == Frames(nic, sent)
      && printed == old(printed) + Prints(q, r.printed)
      && heap == old(heap) && refused == old(refused)
      && connectionCount == (if r.established then (old(connectionCount) + 1) % U64 else old(connectionCount))
      && counted == (if r.established then old(counted) + {c} else old(counted))
      && table == (if r.fate == Stays then old(table) else old(table) - {q})
      && removed == (if r.fate == Removed then old(removed) + {c} else old(removed))
      && freed == (if r.fate == RemovedAndFreed then old(freed) + {c} else old(freed))
    }

    method HandleTcpListen(q: Quad, s: Segment, mem: Conn) returns (r: Connection?)
      requires wire == Frames(nic, sent)
      modifies `wire, `sent, `heap
      ensures r == null <==> s.flags != SYN
      ensures r == null ==> unchanged(this)
      ensures r != null ==> fresh(r) && heap == old(heap) + {r}
                            && r.View() == Tx(ListenConn(q, s, mem), |s.data|)
                            && sent == old(sent) + [TxPacket(ListenConn(q, s, mem), s.data)]
      ensures wire == Frames(nic, sent)
    {
      hide Tx, TxPacket, SegmentCheck, IsBetweenWrapped, Add32, Sub32, Frames;
      if s.flags != SYN {
        return null;
      }
      var iss: u32 := 0;
      var wnd: u16 := 64240;
      var c := new Connection(mem);
      heap := heap + {c};
      c.q := q;
      c.tcpState := SYN_RECV;
      c.snd := c.snd.(una := iss, nxt := iss, wnd := wnd, up := false, wl1 := 0, wl2 := 0);
      c.rcv := c.rcv.(irs := s.seqn, nxt := Add32(s.seqn, 1), wnd := s.win, up := false);
      c.ip := c.ip.(src := q.dip, dst := q.sip);
      c.tcp := c.tcp.(srcPort := q.dport, dstPort := q.sport, sentSeq := 0, rxWin := wnd, flags := SYN_ACK);
      assert c.View() == ListenConn(q, s, mem);
      TcpTxPackets(c, s.data);
      r := c;
    }

    method HandleTcpSynRecv(c: Connection, s: Segment)
      requires Usable(c)
      modifies c, `wire, `sent, `connectionCount, `counted
      ensures c.View() == HandleSynRecv(old(c.View()), s).conn && Replied(c, old(c.q), HandleSynRecv(old(c.View()), s))
    {
      ghost var v := c.View();
      hide Tx, TxPacket, SegmentCheck, IsBetweenWrapped, Add32, Sub32, Frames;
      if !SegmentCheck(c.rcv.nxt, c.rcv.wnd, |s.data|, s.seqn) {
        if s.flags.syn {
          c.snd := c.snd.(nxt := Sub32(c.snd.nxt, 1));
          c.tcp := c.tcp.(flags := c.tcp.flags.(syn := true));
          assert c.View() == WithFlags(WithSndNxt(v, Sub32(v.snd.nxt, 1)), v.tcp.flags.(syn := true));
          TcpTxPackets(c, s.data);
        }
        return;
      }
      if IsBetweenWrapped(Sub32(c.snd.una, 1), s.ackn, Add32(c.snd.nxt, 1)) {
        c.tcpState := ESTABLISHED;
        connectionCount := (connectionCount + 1) % U64;
        counted := counted + {c};
      }
    }

    method HandleTcpEstablish(c: Connection, s: Segment)
      requires Usable(c)
      modifies c, `wire, `sent, `printed
      ensures c.View() == HandleEstablish(old(c.View()), s).conn && Replied(c, old(c.q), HandleEstablish(old(c.View()), s))
    {
      hide Tx, TxPacket, SegmentCheck, IsBetweenWrapped, Add32, Sub32, Frames;
      if SegmentCheck(c.rcv.nxt, c.rcv.wnd, |s.data|, s.seqn) {
        if s.flags.fin {
          AnswerFin(c, s);
        } else if |s.data| == 0 {
          c.snd := c.snd.(nxt := s.ackn);
        } else {
          TakeData(c, s);
        }
      }
    }

    /** The branch of `handle_tcp_establish` for a FIN. */
    method AnswerFin(c: Connection, s: Segment)
      requires Usable(c) && SegmentOk(c.View(), s) && s.flags.fin
      modifies c, `wire, `sent
      ensures c.View() == HandleEstablish(old(c.View()), s).conn && Replied(c, old(c.q), HandleEstablish(old(c.View()), s))
    {
      hide Tx, TxPacket, SegmentCheck, IsBetweenWrapped, Add32, Sub32, Frames;
      c.tcpState := CLOSE_WAIT;
      c.tcp := c.tcp.(flags := ACK);
      c.rcv := c.rcv.(nxt := Add32(s.seqn, 1));
      c.tcp := c.tcp.(flags := FIN_ACK);
      assert c.View() == WithFlags(WithRcvNxt(old(c.View()).(state := CLOSE_WAIT), Add32(s.seqn, 1)), FIN_ACK);
      TcpTxPackets(c, s.data);
      c.tcpState := LAST_ACK;
    }

    /** The branch of `handle_tcp_establish` for data. */
    method TakeData(c: Connection, s: Segment)
      requires Usable(c) && SegmentOk(c.View(), s) && !s.flags.fin && |s.data| != 0
      modifies c, `wire, `sent, `printed
      ensures c.View() == HandleEstablish(old(c.View()), s).conn && Replied(c, old(c.q), HandleEstablish(old(c.View()), s))
    {
      hide Tx, TxPacket, SegmentCheck, IsBetweenWrapped, Add32, Sub32, Frames;
      printed := printed + [Print(c.q, s.data)];
      c.tcp := c.tcp.(flags := ACK);
      c.rcv := c.rcv.(nxt := Add32(s.seqn, |s.data|));
      c.snd := c.snd.(nxt := s.ackn);
      assert c.View() == WithSndNxt(WithRcvNxt(WithFlags(old(c.View()), ACK), Add32(s.seqn, |s.data|)), s.ackn);
      TcpTxPackets(c, []);
      assert [s.data][1..] == [] && Prints(old(c.q), [s.data]) == [Print(old(c.q), s.data)];
    }

    method HandleTcpSynSent(c: Connection, s: Segment)
      requires Usable(c)
      modifies c, `wire, `sent
      ensures c.View() == HandleSynSent(old(c.View()), s).conn && Replied(c, old(c.q), HandleSynSent(old(c.View()), s))
    {
      ghost var v := c.View();
      hide Tx, TxPacket, SegmentCheck, IsBetweenWrapped, Add32, Sub32, Frames;
      c.rcv := c.rcv.(nxt := s.seqn);
      if SegmentCheck(c.rcv.nxt, c.rcv.wnd, 0, s.seqn) {
        if IsBetweenWrapped(Sub32(c.snd.una, 1), s.ackn, Add32(c.snd.nxt, 1)) {
          c.tcpState := ESTABLISHED;
          c.snd := c.snd.(una := Add32(s.ackn, 1));
        }
      } else {
        return;
      }
      ghost var est := c.View();
      assert est == if AckOk(v, s.ackn) then WithRcvNxt(v, s.seqn).(state := ESTABLISHED, snd := v.snd.(una := Add32(s.ackn, 1)))
                    else WithRcvNxt(v, s.seqn);
      c.tcp := c.tcp.(flags := ACK);
      c.rcv := c.rcv.(nxt := Add32(s.seqn, 1));
      assert c.View() == WithRcvNxt(WithFlags(est, ACK), Add32(s.seqn, 1));
      TcpTxPackets(c, s.data);
    }

    method HandleTcpFinWait1(c: Connection, s: Segment)
      requires Usable(c)
      modifies c, `wire, `sent, `table, `removed
      ensures c.View() == HandleFinWait1(old(c.View()), s).conn && Replied(c, old(c.q), HandleFinWait1(old(c.View()), s))
    {
      ghost var v := c.View();
      hide Tx, TxPacket, SegmentCheck, IsBetweenWrapped, Add32, Sub32, Frames;
      if !SegmentCheck(c.rcv.nxt, c.rcv.wnd, |s.data|, s.seqn) {
        return;
      } else if IsBetweenWrapped(Sub32(c.snd.una, 1), s.ackn, Add32(c.snd.nxt, 1)) {
        c.tcpState := FIN_WAIT2;
        c.tcp := c.tcp.(flags := ACK);
        c.rcv := c.rcv.(nxt := Add32(s.seqn, 1));
        assert c.View() == WithRcvNxt(WithFlags(v.(state := FIN_WAIT2), ACK), Add32(s.seqn, 1));
        TcpTxPackets(c, []);
        DelKey(c.q);
        removed := removed + {c};
      }
    }

    method HandleTcpFinWait2(c: Connection, s: Segment)
      requires Usable(c)
      modifies c, `wire, `sent, `table, `removed
      ensures c.View() == HandleFinWait2(old(c.View()), s).conn && Replied(c, old(c.q), HandleFinWait2(old(c.View()), s))
    {
      ghost var v := c.View();
      hide Tx, TxPacket, SegmentCheck, IsBetweenWrapped, Add32, Sub32, Frames;
      if !SegmentCheck(c.rcv.nxt, c.rcv.wnd, |s.data|, s.seqn) {
        return;
      } else {
        c.tcp := c.tcp.(flags := ACK);
        c.rcv := c.rcv.(nxt := Add32(s.seqn, 1));
        assert c.View() == WithRcvNxt(WithFlags(v, ACK), Add32(s.seqn, 1));
        TcpTxPackets(c, s.data);
        DelKey(c.q);
        removed := removed + {c};
      }
    }

    method HandleTcpLastAck(c: Connection, s: Segment)
      requires Usable(c)
      modifies c, `table
      ensures c.View() == HandleLastAck(old(c.View()), s).conn && table == old(table) - {old(c.q)}
    {
      c.tcpState := CLOSE;
      DelKey(c.q);
    }

    // ----- what a step does to the books -----

    /** A reply carried out is the specification's `Apply`, and the invariant survives it. */
    twostate lemma Applied(new c: Connection, new q: Quad, new r: Reply)
      requires old(Valid()) && q in old(table) && old(table[q]) == c
      requires ReplyShape(old(c.View()), r)
      requires forall o <- old(table).Values :: o != c ==> unchanged(o)
      requires c.View() == r.conn && Replied(c, q, r)
      ensures Valid() && State() == Apply(old(State()), q, r) && table.Values <= old(table).Values
    {
      var b := old(CurrentBooks());
      EntryLeaves(b.entries, q);
      hide Balanced, Public, Apply, AfterReply, Frames, Prints;
      RepliedBooks(c, q, r);
      ReplyBalanced(b, q, r);
      NotGivenBack(b, q);
      ReplyPublic(b, q, r, nic.ip, old(sent), old(printed));
    }

    twostate lemma RepliedBooks(new c: Connection, new q: Quad, new r: Reply)
      requires Injective(old(table)) && q in old(table) && old(table[q]) == c
      requires forall o <- old(table).Values :: o != c ==> unchanged(o)
      requires c.View() == r.conn && Replied(c, q, r)
      ensures CurrentBooks() == AfterReply(old(CurrentBooks()), q, r)
    {
      hide Balanced, Frames, Prints;
      RepliedContents(c, q, r);
    }

    twostate lemma RepliedContents(new c: Connection, new q: Quad, new r: Reply)
      requires Injective(old(table)) && q in old(table) && old(table[q]) == c
      requires forall o <- old(table).Values :: o != c ==> unchanged(o)
      requires c.View() == r.conn && heap == old(heap)
      requires table == if r.fate == Stays then old(table) else old(table) - {q}
      ensures CurrentBooks().contents == if r.fate == Stays then old(CurrentBooks().contents)[q := r.conn] else old(CurrentBooks().contents) - {q}
    {
      hide Frames, Prints;
      forall k | k in table && k != q ensures unchanged(table[k]) {
        assert old(table)[k] in old(table).Values && old(table)[k] != c;
      }
    }

    /** The fresh block `c` of flow `q` was transmitted as `p` and offered to the table. */
    twostate predicate Offered(new c: Connection, new q: Quad, new p: Packet)
      reads this
    {
      && heap == old(heap) + {c}
      && sent == old(sent) + [p] && wire == Frames(nic, sent) && printed == old(printed)
      && freed == old(freed) && removed == old(removed)
      && counted == old(counted) && connectionCount == old(connectionCount)
      && (if |old(table)| < TABLE_CAPACITY then table == old(table)[q := c] && refused == old(refused)
          else table == old(table) && refused == old(refused) + {c})
    }

    /** A block offered is the specification's `Enter`, and the invariant survives it. */
    twostate lemma Entered(new c: Connection, new q: Quad, new view: Conn, new p: Packet)
      requires old(Valid()) && q !in old(table) && c !in old(heap) && view.q == q
      requires forall o <- old(table).Values :: unchanged(o)
      requires c.View() == view && Offered(c, q, p)
      ensures Valid() && State() == Enter(old(State()), q, view, p)
    {
      hide Balanced, Public, Enter, AfterOpen, Frames;
      var b := old(CurrentBooks());
      EnteredBooks(c, q, view, p);
      OpenBalanced(b, q, c, view);
      OpenPublic(b, q, c, view, p, nic.ip, old(sent), printed);
    }

    twostate lemma EnteredBooks(new c: Connection, new q: Quad, new view: Conn, new p: Packet)
      requires q !in old(table) && c !in old(heap)
      requires forall o <- old(table).Values :: unchanged(o)
      requires c.View() == view && Offered(c, q, p)
      ensures CurrentBooks() == AfterOpen(old(CurrentBooks()), q, c, view)
    {
      hide Frames;
      EnteredContents(c, q, view);
    }

    twostate lemma EnteredContents(new c: Connection, new q: Quad, new view: Conn)
      requires q !in old(table) && c !in old(heap)
      requires forall o <- old(table).Values :: unchanged(o)
      requires c.View() == view && heap == old(heap) + {c}
      requires table == old(table)[q := c] || table == old(table)
      ensures table == old(table)[q := c] ==> CurrentBooks().contents == old(CurrentBooks().contents)[q := view]
      ensures table == old(table) ==> CurrentBooks().contents == old(CurrentBooks().contents)
    {
      forall k | k in old(table) ensures unchanged(old(table)[k]) {
        assert old(table)[k] in old(table).Values;
      }
    }

    lemma TableFits()
      requires Valid()
      ensures |table| <= TABLE_CAPACITY && State().nicIp == nic.ip && State().table.Keys == table.Keys
    {
    }

    // ----- steps of the endpoint -----

    /** The LAST_ACK case of the dispatch: the handler deletes the entry, then the block is freed and
        the key of the segment deleted once more. */
    method CloseAndFree(c: Connection, s: Segment)
      requires Usable(c) && c.q == s.q
      modifies c, `table, `freed
      ensures c.View() == HandleLastAck(old(c.View()), s).conn && Replied(c, s.q, HandleLastAck(old(c.View()), s))
    {
      HandleTcpLastAck(c, s);
      Free(c);
      DelKey(s.q);
    }

    method Dispatch(c: Connection, s: Segment)
      requires Usable(c) && c.q == s.q
      modifies this, c
      ensures c.View() == Handle(old(c.View()), s).conn && Replied(c, s.q, Handle(old(c.View()), s))
    {
      hide HandleSynRecv, HandleEstablish, HandleLastAck, HandleSynSent, HandleFinWait1, HandleFinWait2, Frames;
      match c.tcpState {
        case SYN_RECV => HandleTcpSynRecv(c, s);
        case ESTABLISHED => HandleTcpEstablish(c, s);
        case LAST_ACK => CloseAndFree(c, s);
        case SYN_SENT => HandleTcpSynSent(c, s);
        case FIN_WAIT1 => HandleTcpFinWait1(c, s);
        case FIN_WAIT2 => HandleTcpFinWait2(c, s);
        case _ =>
      }
    }

    /** One received segment: the body of the loop in `tcp_rx_packets` after decoding. */
    method RxSegment(s: Segment, mem: Conn)
      requires Valid()
      modifies this, table.Values
      ensures Valid() && fresh(table.Values - old(table.Values))
      ensures State() == Rx(old(State()), s, mem)
    {
      hide Handle, Apply, Open, ListenConn, Balanced, Frames;
      if s.q.dip != nic.ip {
        return;
      }
      if s.q !in table {
        RxUnknown(s, mem);
      } else {
        assert State().table[s.q] == table[s.q].View();
        RxKnown(table[s.q], s);
      }
    }

    /** The answer to a segment of an unknown flow: `handle_tcp_listen`, then the table. */
    method ListenAndEnter(s: Segment, mem: Conn) returns (c: Connection?)
      requires wire == Frames(nic, sent) && |table| <= TABLE_CAPACITY && s.q !in table
      modifies `wire, `sent, `heap, `table, `refused
      ensures c == null <==> s.flags != SYN
      ensures c == null ==> unchanged(this)
      ensures c != null ==> fresh(c) && c.View() == Tx(ListenConn(s.q, s, mem), |s.data|)
                            && Offered(c, s.q, TxPacket(ListenConn(s.q, s, mem), s.data)) && c.q == s.q
    {
      c := HandleTcpListen(s.q, s, mem);
      if c != null {
        TxKeepsQuad(ListenConn(s.q, s, mem), |s.data|);
        AddKey(s.q, c);
      }
    }

    method RxUnknown(s: Segment, mem: Conn)
      requires Valid() && s.q !in table
      modifies this
      ensures Valid() && fresh(table.Values - old(table.Values))
      ensures State() == if s.flags == SYN then Open(old(State()), s.q, ListenConn(s.q, s, mem), s.data) else old(State())
    {
      hide Enter, Public, Frames, Tx, TxPacket, ListenConn, Balanced;
      TableFits();
      var c := ListenAndEnter(s, mem);
      if c != null {
        Entered(c, s.q, c.View(), TxPacket(ListenConn(s.q, s, mem), s.data));
      }
    }

    method RxKnown(c: Connection, s: Segment)
      requires Valid() && s.q in table && table[s.q] == c
      modifies this, c
      ensures Valid() && heap == old(heap) && table.Values <= old(table.Values)
      ensures State() == Apply(old(State()), s.q, Handle(old(c.View()), s))
    {
      hide Handle, Apply, Public, Frames, ReplyShape, Balanced;
      NotGivenBack(CurrentBooks(), s.q);
      assert CurrentBooks().contents[s.q] == c.View();
      HandleShape(c.View(), s);
      Dispatch(c, s);
      Applied(c, s.q, Handle(old(c.View()), s));
    }

    method ConnectAndEnter(q: Quad, mem: Conn) returns (c: Connection)
      requires wire == Frames(nic, sent) && |table| <= TABLE_CAPACITY && q !in table
      modifies `wire, `sent, `heap, `table, `refused
      ensures fresh(c) && c.View() == Tx(ConnectConn(q, mem), 0) && Offered(c, q, TxPacket(ConnectConn(q, mem), []))
              && c.q == q
    {
      TxKeepsQuad(ConnectConn(q, mem), 0);
      c := FillAndSendSyn(q, mem);
      AddKey(q, c);
    }

    method ActiveConnect(dip: u32, dport: u16, sport: u16, mem: Conn)
      requires Valid()
      modifies this
      ensures Valid() && fresh(table.Values - old(table.Values))
      ensures State() == TcpSpec.ActiveConnect(old(State()), dip, dport, sport, mem)
    {
      hide Enter, Public, Frames, Tx, TxPacket, ConnectConn, Balanced;
      TableFits();
      var q := Quad(dip, dport, nic.ip, sport);
      if q !in table {
        var c := ConnectAndEnter(q, mem);
        Entered(c, q, c.View(), TxPacket(ConnectConn(q, mem), []));
      }
    }

    method FillAndSendSyn(q: Quad, mem: Conn) returns (c: Connection)
      requires wire == Frames(nic, sent)
      modifies `wire, `sent, `heap
      ensures fresh(c) && heap == old(heap) + {c} && c.View() == Tx(ConnectConn(q, mem), 0)
      ensures sent == old(sent) + [TxPacket(ConnectConn(q, mem), [])] && wire == Frames(nic, sent)
    {
      hide Tx, TxPacket, SegmentCheck, IsBetweenWrapped, Add32, Sub32, Frames;
      var iss: u32 := 0;
      var wnd: u16 := 64240;
      c := new Connection(mem);
      heap := heap + {c};
      c.q := q;
      c.snd := c.snd.(una := iss, nxt := iss, wnd := wnd, up := false, wl1 := 0, wl2 := 0, iss := iss);
      c.rcv := c.rcv.(irs := iss, nxt := iss, wnd := wnd, up := false);
      c.ip := c.ip.(src := q.dip, dst := q.sip);
      c.tcp := c.tcp.(srcPort := q.dport, dstPort := q.sport, sentSeq := 0, rxWin := wnd, flags := SYN);
      c.tcpState := SYN_SENT;
      assert c.View() == ConnectConn(q, mem);
      TcpTxPackets(c, []);
    }

    method ActiveClose(c: Connection)
      requires Usable(c)
      modifies c, `wire, `sent
      ensures c.View() == TcpSpec.ActiveClose(old(c.View())).conn && Replied(c, old(c.q), TcpSpec.ActiveClose(old(c.View())))
    {
      hide Tx, TxPacket, SegmentCheck, IsBetweenWrapped, Add32, Sub32, Frames;
      c.tcp := c.tcp.(flags := FIN_ACK);
      TcpTxPackets(c, []);
      c.tcpState := FIN_WAIT1;
    }

    method ActiveSendData(c: Connection, data: Bytes)
      requires Usable(c) && |data| <= PAYLOAD_SIZE
      modifies c, `wire, `sent
      ensures c.View() == ActiveSend(old(c.View()), data).conn && Replied(c, old(c.q), ActiveSend(old(c.View()), data))
    {
      hide ActiveSend, Tx, TxPacket, SegmentCheck, IsBetweenWrapped, Add32, Sub32, Frames;
      c.tcp := c.tcp.(flags := PSH_ACK);
      FillPayload(c, data);
      SendSends(old(c.View()), data);
      TcpTxPackets(c, data);
    }

    /** The copying loop of `active_send_data`. */
    method FillPayload(c: Connection, data: Bytes)
      requires |data| <= PAYLOAD_SIZE
      modifies c`payload
      ensures c.payload == data + old(c.payload)[|data|..]
    {
      for i := 0 to |data|
        invariant c.payload == data[..i] + old(c.payload)[i..]
      {
        c.payload := c.payload[i := data[i]];
      }
      assert data[..|data|] == data;
    }

    method CloseKnown(c: Connection, q: Quad)
      requires Valid() && q in table && table[q] == c
      modifies this, c
      ensures Valid() && heap == old(heap) && table.Values <= old(table.Values)
      ensures State() == Apply(old(State()), q, TcpSpec.ActiveClose(old(c.View())))
    {
      hide TcpSpec.ActiveClose, Apply, Public, Frames, ReplyShape, Balanced;
      NotGivenBack(CurrentBooks(), q);
      CommandShape(c.View(), []);
      ActiveClose(c);
      Applied(c, q, TcpSpec.ActiveClose(old(c.View())));
    }

    method SendKnown(c: Connection, q: Quad, data: Bytes)
      requires Valid() && q in table && table[q] == c && |data| <= PAYLOAD_SIZE
      modifies this, c
      ensures Valid() && heap == old(heap) && table.Values <= old(table.Values)
      ensures State() == Apply(old(State()), q, ActiveSend(old(c.View()), data))
    {
      hide ActiveSend, Apply, Public, Frames, ReplyShape, Balanced;
      NotGivenBack(CurrentBooks(), q);
      CommandShape(c.View(), data);
      ActiveSendData(c, data);
      Applied(c, q, ActiveSend(old(c.View()), data));
    }

    // ----- the endpoint from outside: frames and console commands -----

    /** One frame of the receive queue: filter, decode, dispatch. */
    method RxFrame(buf: Bytes, mem: Conn)
      requires Valid() && Readable(nic.mac, nic.ip, buf)
      modifies this, table.Values
      ensures Valid() && fresh(table.Values - old(table.Values))
      ensures State() == RxOne(old(State()), nic, buf, mem)
    {
      var decoded := Decode(nic.mac, nic.ip, buf);
      if decoded.Some? {
        RxSegment(decoded.value, mem);
      }
    }

    /** One burst, frame by frame. */
    method RxBurst(bufs: seq<Bytes>, mems: seq<Conn>)
      requires Valid() && |mems| == |bufs| && AllReadable(nic, bufs)
      modifies this, table.Values
      ensures Valid() && fresh(table.Values - old(table.Values))
      ensures State() == RxAll(old(State()), nic, bufs, mems)
    {
      ghost var e := State();
      RxAllNone(e, nic);
      hide RxOne, RxAll, Balanced, Public;
      for i := 0 to |bufs|
        invariant Valid() && fresh(table.Values - old(table.Values))
        invariant State() == RxAll(e, nic, bufs[..i], mems[..i])
      {
        ghost var before := State();
        RxFrame(bufs[i], mems[i]);
        assert State() == RxOne(before, nic, bufs[i], mems[i]);
        RxAllSnoc(e, nic, bufs, mems, i);
      }
      assert bufs[..|bufs|] == bufs && mems[..|mems|] == mems;
    }

    /** The console's `close`: look the flow up, then close it. */
    method ConsoleClose(q: Quad)
      requires Valid()
      modifies this, table.Values
      ensures Valid() && heap == old(heap) && table.Values <= old(table.Values)
      ensures State() == Step(old(State()), Close(q))
    {
      hide TcpSpec.ActiveClose, Apply, Balanced, Frames;
      if q in table {
        assert State().table[q] == table[q].View();
        CloseKnown(table[q], q);
      }
    }

    /** The console's `send`. */
    method ConsoleSend(q: Quad, data: Bytes)
      requires Valid() && |data| <= PAYLOAD_SIZE
      modifies this, table.Values
      ensures Valid() && heap == old(heap) && table.Values <= old(table.Values)
      ensures State() == Step(old(State()), Send(q, data))
    {
      hide ActiveSend, Apply, Balanced, Frames;
      if q in table {
        assert State().table[q] == table[q].View();
        SendKnown(table[q], q, data);
      }
    }
  }

  /** What one frame does to the endpoint; one that the filters drop does nothing. */
  function RxOne(e: Endpoint, nic: Nic, buf: Bytes, mem: Conn): Endpoint
    requires Readable(nic.mac, nic.ip, buf)
  {
    var decoded := Decode(nic.mac, nic.ip, buf);
    if decoded.Some? then Rx(e, decoded.value, mem) else e
  }

  /** What the endpoint behind `to` makes of the frame that `from` sends for `p` is what it makes of the
      segment of `p`. */
  predicate FrameArrives(e: Endpoint, from: Nic, to: Nic, p: Packet, mem: Conn)
    requires |p.data| <= 65495
  {
    && Readable(to.mac, to.ip, FrameOf(from, p))
    && RxOne(e, to, FrameOf(from, p), mem) == Rx(e, SegmentOf(p), mem)
  }

  /** So it is for every stamped packet that is addressed to it. */
  lemma FrameIsSegment(e: Endpoint, from: Nic, to: Nic, p: Packet, mem: Conn)
    requires IsStamped(p) && |p.data| <= 65495
    requires from.dstMac == to.mac && p.ip.dst == to.ip
    ensures FrameArrives(e, from, to, p, mem)
  {
    hide FrameOf, Decode, Rx, SegmentOf;
    FrameRoundTrip(from, p, to.mac, to.ip);
  }

  lemma RxAllNone(e: Endpoint, nic: Nic)
    ensures RxAll(e, nic, [], []) == e
  {
  }

  lemma RxAllSnoc(e: Endpoint, nic: Nic, bufs: seq<Bytes>, mems: seq<Conn>, i: nat)
    requires |mems| == |bufs| && AllReadable(nic, bufs) && i < |bufs|
    ensures RxAll(e, nic, bufs[..i + 1], mems[..i + 1]) == RxOne(RxAll(e, nic, bufs[..i], mems[..i]), nic, bufs[i], mems[i])
  {
    assert bufs[..i + 1][..i] == bufs[..i] && mems[..i + 1][..i] == mems[..i];
  }

  function RxAll(e: Endpoint, nic: Nic, bufs: seq<Bytes>, mems: seq<Conn>): Endpoint
    requires |mems| == |bufs| && AllReadable(nic, bufs)
  {
    if bufs == [] then e
    else
      var n := |bufs| - 1;
      RxOne(RxAll(e, nic, bufs[..n], mems[..n]), nic, bufs[n], mems[n])
  }

  predicate AllReadable(nic: Nic, bufs: seq<Bytes>) {
    forall i :: 0 <= i < |bufs| ==> Readable(nic.mac, nic.ip, bufs[i])
  }

  /** Burst boundaries leave no trace: two bursts in a row are their concatenation. */
  lemma {:induction false} BurstsConcatenate(e: Endpoint, nic: Nic, a: seq<Bytes>, ma: seq<Conn>, b: seq<Bytes>, mb: seq<Conn>)
    requires |ma| == |a| && |mb| == |b| && AllReadable(nic, a) && AllReadable(nic, b)
    ensures AllReadable(nic, a + b) && RxAll(e, nic, a + b, ma + mb) == RxAll(RxAll(e, nic, a, ma), nic, b, mb)
    decreases |b|
  {
    hide RxOne, RxAll, Readable;
    ReadableConcat(nic, a, b);
    if b == [] {
      assert a + b == a && ma + mb == ma;
      RxAllNone(RxAll(e, nic, a, ma), nic);
    } else {
      var n := |b| - 1;
      BurstsConcatenate(e, nic, a, ma, b[..n], mb[..n]);
      RxAllSnoc(e, nic, a + b, ma + mb, |a| + n);
      RxAllSnoc(RxAll(e, nic, a, ma), nic, b, mb, n);
      assert (a + b)[..|a| + n] == a + b[..n] && (ma + mb)[..|a| + n] == ma + mb[..n];
      assert (a + b)[..|a| + n + 1] == a + b && (ma + mb)[..|a| + n + 1] == ma + mb;
      assert b[..n + 1] == b && mb[..n + 1] == mb;
    }
  }

  lemma ReadableConcat(nic: Nic, a: seq<Bytes>, b: seq<Bytes>)
    requires AllReadable(nic, a) && AllReadable(nic, b)
    ensures AllReadable(nic, a + b)
  {
  }

  /** The events that a burst amounts to. */
  function Deliveries(nic: Nic, bufs: seq<Bytes>, mems: seq<Conn>): seq<Event>
    requires |mems| == |bufs| && AllReadable(nic, bufs)
  {
    if bufs == [] then []
    else
      var n := |bufs| - 1;
      var decoded := Decode(nic.mac, nic.ip, bufs[n]);
      Deliveries(nic, bufs[..n], mems[..n]) + if decoded.Some? then [Receive(decoded.value, mems[n])] else []
  }

  /** A burst is a run, so everything that holds of every run holds after every burst. */
  lemma {:induction false} BurstIsRun(e: Endpoint, nic: Nic, bufs: seq<Bytes>, mems: seq<Conn>)
    requires |mems| == |bufs| && AllReadable(nic, bufs)
    ensures AllAllowed(Deliveries(nic, bufs, mems))
    ensures RxAll(e, nic, bufs, mems) == Run(e, Deliveries(nic, bufs, mems))
  {
    hide Rx, Decode, Readable, Handle;
    if bufs != [] {
      var n := |bufs| - 1;
      BurstIsRun(e, nic, bufs[..n], mems[..n]);
      var decoded := Decode(nic.mac, nic.ip, bufs[n]);
      if decoded.Some? {
        RunSnoc(e, Deliveries(nic, bufs[..n], mems[..n]), Receive(decoded.value, mems[n]));
      } else {
        assert Deliveries(nic, bufs, mems) == Deliveries(nic, bufs[..n], mems[..n]);
      }
    }
  }

  lemma SendSends(c: Conn, data: Bytes)
    requires |data| <= PAYLOAD_SIZE
    ensures var d := WithFlags(c, PSH_ACK).(payload := data + c.payload[|data|..]);
            ActiveSend(c, data) == Reply(Tx(d, |data|), [TxPacket(d, data)], [], Stays, false)
  {
  }

  lemma TxKeepsQuad(c: Conn, size: nat)
    ensures Tx(c, size).q == c.q
  {
  }

  ghost function Frames(nic: Nic, ps: seq<Packet>): (fs: seq<Bytes>)
    ensures |fs| == |ps|
  {
    seq(|ps|, i requires 0 <= i < |ps| => FrameOf(nic, ps[i]))
  }
}
