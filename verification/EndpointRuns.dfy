/** The runs of module TcpRuns on the mutable endpoint: any bursts of frames and any console commands, in
    any order, from the constructor on. */
module EndpointRuns {
  import opened SeqArith
  import opened TcpTypes
  import opened TcpSpec
  import opened TcpRuns
  import opened TcpEndpoint
  import opened Frame
  import Ownership

  datatype Call =
    | CallBurst(bufs: seq<Bytes>, mems: seq<Conn>)
    | CallConnect(dip: u32, dport: u16, sport: u16, mem: Conn)
    | CallClose(q: Quad)
    | CallSend(q: Quad, data: Bytes)

  predicate Proper(nic: Nic, c: Call) {
    match c
    case CallBurst(bufs, mems) => |mems| == |bufs| && AllReadable(nic, bufs)
    case CallSend(_, data) => |data| <= PAYLOAD_SIZE
    case _ => true
  }

  predicate AllProper(nic: Nic, calls: seq<Call>) { forall i :: 0 <= i < |calls| ==> Proper(nic, calls[i]) }

  function EventsOf(nic: Nic, c: Call): (evs: seq<Event>)
    requires Proper(nic, c)
  {
    match c
    case CallBurst(bufs, mems) => Deliveries(nic, bufs, mems)
    case CallConnect(dip, dport, sport, mem) => [Connect(dip, dport, sport, mem)]
    case CallClose(q) => [Close(q)]
    case CallSend(q, data) => [Send(q, data)]
  }

  function Events(nic: Nic, calls: seq<Call>): seq<Event>
    requires AllProper(nic, calls)
  {
    if calls == [] then []
    else
      var n := |calls| - 1;
      Events(nic, calls[..n]) + EventsOf(nic, calls[n])
  }

  lemma RunOne(e: Endpoint, ev: Event)
    requires Allowed(ev)
    ensures AllAllowed([ev]) && Run(e, [ev]) == Step(e, ev)
  {
    RunSnoc(e, [], ev);
    assert [] + [ev] == [ev];
  }

  lemma EventsAllowed(nic: Nic, c: Call, e: Endpoint)
    requires Proper(nic, c)
    ensures AllAllowed(EventsOf(nic, c))
  {
    if c.CallBurst? {
      BurstIsRun(e, nic, c.bufs, c.mems);
    }
  }

  lemma EventsSnoc(e: Endpoint, nic: Nic, calls: seq<Call>, i: nat)
    requires AllProper(nic, calls) && i < |calls| && AllAllowed(Events(nic, calls[..i]))
    ensures AllAllowed(EventsOf(nic, calls[i])) && AllAllowed(Events(nic, calls[..i + 1]))
    ensures Run(e, Events(nic, calls[..i + 1])) == Run(Run(e, Events(nic, calls[..i])), EventsOf(nic, calls[i]))
  {
    hide Run;
    EventsAllowed(nic, calls[i], e);
    assert calls[..i + 1][..i] == calls[..i];
    RunConcat(e, Events(nic, calls[..i]), EventsOf(nic, calls[i]));
  }

  method Perform(t: Tcp, c: Call)
    requires t.Valid() && Proper(t.nic, c)
    modifies t, t.table.Values
    ensures t.Valid() && fresh(t.table.Values - old(t.table.Values))
    ensures AllAllowed(EventsOf(t.nic, c)) && t.State() == Run(old(t.State()), EventsOf(t.nic, c))
  {
    ghost var e := t.State();
    hide Run, Step, RxAll;
    t.TableFits();
    match c {
      case CallBurst(bufs, mems) =>
        t.RxBurst(bufs, mems);
        BurstIsRun(e, t.nic, bufs, mems);
      case CallConnect(dip, dport, sport, mem) =>
        t.ActiveConnect(dip, dport, sport, mem);
        RunOne(e, Connect(dip, dport, sport, mem));
        ConnectIsStep(e, dip, dport, sport, mem);
      case CallClose(q) =>
        t.ConsoleClose(q);
        RunOne(e, Close(q));
      case CallSend(q, data) =>
        t.ConsoleSend(q, data);
        RunOne(e, Send(q, data));
    }
  }

  lemma ConnectIsStep(e: Endpoint, dip: u32, dport: u16, sport: u16, mem: Conn)
    ensures Step(e, Connect(dip, dport, sport, mem)) == TcpSpec.ActiveConnect(e, dip, dport, sport, mem)
  {
  }

  /** Whatever the calls and their order, and however frames are cut into bursts: the endpoint is where
      the run of its events leads, its heap is in order, and the invariant of all runs holds of its
      records. */
  method Drive(nic: Nic, calls: seq<Call>) returns (t: Tcp)
    requires AllProper(nic, calls)
    ensures fresh(t) && t.nic == nic && t.Valid() && t.wire == Frames(nic, t.sent)
    ensures AllAllowed(Events(nic, calls)) && t.State() == Run(EmptyEndpoint(nic.ip), Events(nic, calls))
    ensures Inv(t.State()) && forall q <- t.table :: ConnInv(nic.ip, q, t.table[q].View())
    ensures forall q <- t.table :: t.table[q] in t.heap && t.table[q] !in t.freed
    ensures forall q <- t.table, r <- t.table :: t.table[q] == t.table[r] ==> q == r
    ensures |t.heap| == |t.table| + |t.freed| + |t.removed| + |t.refused|
  {
    hide Run, EventsOf, Inv, ConnInv, Frames, Ownership.Balanced, Ownership.Public, AllReadable;
    t := new Tcp(nic);
    t.TableFits();
    NoEvents(nic);
    for i := 0 to |calls|
      invariant t.Valid() && t.nic == nic && fresh(t.table.Values)
      invariant AllAllowed(Events(nic, calls[..i]))
      invariant t.State() == Run(EmptyEndpoint(nic.ip), Events(nic, calls[..i]))
    {
      EventsSnoc(EmptyEndpoint(nic.ip), nic, calls, i);
      Perform(t, calls[i]);
    }
    assert calls[..|calls|] == calls;
    EveryRun(nic.ip, Events(nic, calls));
    RecordsHold(t);
  }

  lemma NoEvents(nic: Nic)
    ensures Events(nic, []) == [] && Run(EmptyEndpoint(nic.ip), []) == EmptyEndpoint(nic.ip)
  {
  }

  lemma RecordsHold(t: Tcp)
    requires t.Valid() && Inv(t.State())
    ensures t.wire == Frames(t.nic, t.sent) && forall q <- t.table :: ConnInv(t.nic.ip, q, t.table[q].View())
    ensures forall q <- t.table :: t.table[q] in t.heap && t.table[q] !in t.freed
    ensures forall q <- t.table, r <- t.table :: t.table[q] == t.table[r] ==> q == r
    ensures |t.heap| == |t.table| + |t.freed| + |t.removed| + |t.refused|
  {
    hide ConnInv;
    t.TableFits();
    Ownership.BlocksConserved(t.CurrentBooks());
    forall q | q in t.table ensures t.table[q] in t.heap && t.table[q] !in t.freed {
      Ownership.NotGivenBack(t.CurrentBooks(), q);
    }
    forall q | q in t.table ensures ConnInv(t.nic.ip, q, t.table[q].View()) {
      assert q in t.State().table && t.State().table[q] == t.table[q].View();
    }
  }
}
