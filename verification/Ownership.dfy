/** The bookkeeping of blocks behind the connection table, without a heap: which block every key
    owns, what each block holds, and where the blocks outside the table went. `T` stands for the
    address of a `struct connection`. */
module Ownership {
  import opened SeqArith
  import opened TcpTypes
  import opened TcpSpec

  datatype Books<T(==)> = Books(
    entries: map<Quad, T>,
    contents: map<Quad, Conn>,
    heap: set<T>,     // every block that `rte_malloc` handed out
    freed: set<T>,    // given back after LAST_ACK
    removed: set<T>,  // taken out of the table by FIN_WAIT1
    refused: set<T>,  // never entered, because the table was full
    counted: set<T>,  // counted in `stats.connection_count`
    count: nat)

  /** Every block is in exactly one of the four places. */
  ghost predicate Partition<T>(entries: set<T>, heap: set<T>, freed: set<T>, removed: set<T>, refused: set<T>) {
    heap == entries + freed + removed + refused && entries !! freed !! removed !! refused
  }

  ghost predicate Injective<T>(t: map<Quad, T>) {
    forall k <- t, k' <- t :: t[k] == t[k'] ==> k == k'
  }

  /** Every entry lies under its own quad; a record in SYN_RECV has not been counted yet. */
  ghost predicate Keyed<T>(entries: map<Quad, T>, contents: map<Quad, Conn>, counted: set<T>) {
    && contents.Keys == entries.Keys
    && (forall k <- contents :: contents[k].q == k)
    && (forall k <- contents :: contents[k].state == SYN_RECV ==> entries[k] !in counted)
  }

  /** `stats.connection_count`, an unsigned long, counts the members of `counted`. */
  ghost predicate Counts<T>(counted: set<T>, count: nat) { count == |counted| % U64 }

  /** Every entry is an allocated block that was not given back, distinct keys own distinct blocks,
      and each lies under its own quad. */
  ghost predicate Balanced<T>(b: Books<T>) {
    && Partition(b.entries.Values, b.heap, b.freed, b.removed, b.refused)
    && Injective(b.entries) && |b.entries| <= TABLE_CAPACITY
    && Keyed(b.entries, b.contents, b.counted)
    && b.counted <= b.heap && Counts(b.counted, b.count)
  }

  /** What the outside sees of the books. */
  ghost function Public<T>(b: Books<T>, nicIp: u32, sent: seq<Packet>, printed: seq<Print>): Endpoint {
    Endpoint(nicIp, b.contents, b.count, sent, printed, Ledger(|b.heap|, |b.freed|, |b.removed|, |b.refused|))
  }

  ghost function AfterReply<T>(b: Books<T>, q: Quad, r: Reply): Books<T>
    requires q in b.entries
  {
    var c := b.entries[q];
    b.(entries := if r.fate == Stays then b.entries else b.entries - {q},
       contents := if r.fate == Stays then b.contents[q := r.conn] else b.contents - {q},
       removed := if r.fate == Removed then b.removed + {c} else b.removed,
       freed := if r.fate == RemovedAndFreed then b.freed + {c} else b.freed,
       counted := if r.established then b.counted + {c} else b.counted,
       count := if r.established then (b.count + 1) % U64 else b.count)
  }

  /** The fresh block `c`, filled in as `view`, is offered to the table. */
  ghost function AfterOpen<T>(b: Books<T>, q: Quad, c: T, view: Conn): Books<T> {
    if |b.entries| < TABLE_CAPACITY then
      b.(entries := b.entries[q := c], contents := b.contents[q := view], heap := b.heap + {c})
    else
      b.(heap := b.heap + {c}, refused := b.refused + {c})
  }

  /** No handler changes a connection's quad, and it counts a connection exactly when it takes it
      out of SYN_RECV for good. */
  predicate ReplyShape(c: Conn, r: Reply) {
    && r.conn.q == c.q
    && (r.conn.state == SYN_RECV ==> c.state == SYN_RECV && !r.established)
    && (r.established ==> c.state == SYN_RECV && r.fate == Stays)
  }

  lemma HandleShape(c: Conn, s: Segment)
    ensures ReplyShape(c, Handle(c, s))
  {
  }

  lemma CommandShape(c: Conn, data: Bytes)
    requires |data| <= PAYLOAD_SIZE
    ensures ReplyShape(c, ActiveClose(c)) && ReplyShape(c, ActiveSend(c, data))
  {
  }

  // ----- sets and maps -----

  lemma PartitionMoves<T>(entries: set<T>, heap: set<T>, freed: set<T>, removed: set<T>, refused: set<T>, c: T)
    requires Partition(entries, heap, freed, removed, refused) && c in entries
    ensures Partition(entries - {c}, heap, freed + {c}, removed, refused) && c !in freed
    ensures Partition(entries - {c}, heap, freed, removed + {c}, refused) && c !in removed
  {
  }

  lemma PartitionGrows<T>(entries: set<T>, heap: set<T>, freed: set<T>, removed: set<T>, refused: set<T>, c: T)
    requires Partition(entries, heap, freed, removed, refused) && c !in heap
    ensures Partition(entries + {c}, heap + {c}, freed, removed, refused)
    ensures Partition(entries, heap + {c}, freed, removed, refused + {c}) && c !in refused
  {
  }

  /** Removing a key removes its block when no other key holds it. */
  lemma EntryLeaves<T>(t: map<Quad, T>, q: Quad)
    requires q in t && Injective(t)
    ensures (t - {q}).Values == t.Values - {t[q]} && |t - {q}| == |t| - 1 && Injective(t - {q})
  {
    forall v | v in t.Values && v != t[q] ensures v in (t - {q}).Values {
      var k :| k in t && t[k] == v;
      assert k in t - {q};
    }
    assert (t - {q}).Keys == t.Keys - {q};
    assert |(t - {q}).Keys| == |t - {q}| && |t.Keys| == |t|;
  }

  lemma EntryArrives<T>(t: map<Quad, T>, q: Quad, v: T)
    requires q !in t && Injective(t) && v !in t.Values
    ensures t[q := v].Values == t.Values + {v} && |t[q := v]| == |t| + 1 && Injective(t[q := v])
  {
    NewValue(t, q, v);
    NewKey(t, q, v);
    assert forall k <- t :: t[k] in t.Values;
  }

  lemma NewValue<T>(t: map<Quad, T>, q: Quad, v: T)
    requires q !in t
    ensures t[q := v].Values == t.Values + {v}
  {
    var u := t[q := v];
    assert u[q] == v;
    forall w | w in t.Values ensures w in u.Values {
      var k :| k in t && t[k] == w;
      assert u[k] == w;
    }
  }

  lemma NewKey<T>(t: map<Quad, T>, q: Quad, v: T)
    requires q !in t
    ensures |t[q := v]| == |t| + 1
  {
    var u := t[q := v];
    assert u.Keys == t.Keys + {q};
    assert |u.Keys| == |u| && |t.Keys| == |t|;
  }

  lemma NotGivenBack<T>(b: Books<T>, q: Quad)
    requires Balanced(b) && q in b.entries
    ensures b.entries[q] in b.heap && b.entries[q] !in b.freed + b.removed + b.refused && b.contents[q].q == q
  {
    assert b.entries[q] in b.entries.Values;
  }

  // ----- the two ways the books change -----

  lemma ReplyBalanced<T>(b: Books<T>, q: Quad, r: Reply)
    requires Balanced(b) && q in b.entries && ReplyShape(b.contents[q], r)
    ensures Balanced(AfterReply(b, q, r))
  {
    var c := b.entries[q];
    match r.fate
    case Stays =>
      StaysBalanced(b, q, r);
    case Removed =>
      EntryLeaves(b.entries, q);
      PartitionMoves(b.entries.Values, b.heap, b.freed, b.removed, b.refused, c);
    case RemovedAndFreed =>
      EntryLeaves(b.entries, q);
      PartitionMoves(b.entries.Values, b.heap, b.freed, b.removed, b.refused, c);
  }

  lemma StaysBalanced<T>(b: Books<T>, q: Quad, r: Reply)
    requires Balanced(b) && Counts(b.counted, b.count) && b.counted <= b.heap && q in b.entries && ReplyShape(b.contents[q], r) && r.fate == Stays
    ensures Balanced(AfterReply(b, q, r))
  {
    hide Partition, Keyed, Counts, Injective, Balanced;
    var c := b.entries[q];
    ReplyKeyed(b, q, r);
    NotGivenBack(b, q);
    if r.established {
      NotCountedYet(b, q);
      CountsOneMore(b.counted, b.count, c);
      BalancedUpdate(b, b.contents[q := r.conn], b.counted + {c}, (b.count + 1) % U64);
    } else {
      BalancedUpdate(b, b.contents[q := r.conn], b.counted, b.count);
    }
  }

  lemma NotCountedYet<T>(b: Books<T>, q: Quad)
    requires Balanced(b) && q in b.entries && b.contents[q].state == SYN_RECV
    ensures b.entries[q] !in b.counted && Counts(b.counted, b.count)
  {
  }

  lemma BalancedUpdate<T>(b: Books<T>, contents: map<Quad, Conn>, counted: set<T>, count: nat)
    requires Balanced(b) && Keyed(b.entries, contents, counted) && counted <= b.heap && Counts(counted, count)
    ensures Balanced(b.(contents := contents, counted := counted, count := count))
  {
    hide Partition, Keyed, Counts, Injective;
  }

  lemma CountsOneMore<T>(counted: set<T>, count: nat, c: T)
    requires Counts(counted, count) && c !in counted
    ensures Counts(counted + {c}, (count + 1) % U64)
  {
    assert |counted + {c}| == |counted| + 1;
  }

  lemma ReplyKeyed<T>(b: Books<T>, q: Quad, r: Reply)
    requires Balanced(b)
    requires q in b.entries && ReplyShape(b.contents[q], r) && r.fate == Stays
    ensures var a := AfterReply(b, q, r); Keyed(a.entries, a.contents, a.counted)
  {
    assert Keyed(b.entries, b.contents, b.counted) && Injective(b.entries);
    hide Partition, Counts, Balanced;
  }

  lemma ReplyPublic<T>(b: Books<T>, q: Quad, r: Reply, nicIp: u32, sent: seq<Packet>, printed: seq<Print>)
    requires q in b.entries && b.entries[q] !in b.freed + b.removed
    ensures Public(AfterReply(b, q, r), nicIp, sent + r.sent, printed + Prints(q, r.printed))
            == Apply(Public(b, nicIp, sent, printed), q, r)
  {
  }

  lemma OpenBalanced<T>(b: Books<T>, q: Quad, c: T, view: Conn)
    requires Balanced(b) && q !in b.entries && c !in b.heap && view.q == q
    ensures Balanced(AfterOpen(b, q, c, view))
  {
    hide Balanced;
    if |b.entries| < TABLE_CAPACITY {
      EnteredBalanced(b, q, c, view);
    } else {
      RefusedBalanced(b, c);
    }
  }

  lemma RefusedBalanced<T>(b: Books<T>, c: T)
    requires Balanced(b) && c !in b.heap
    ensures Balanced(b.(heap := b.heap + {c}, refused := b.refused + {c}))
  {
    hide Partition, Keyed, Counts, Injective;
    PartitionGrows(b.entries.Values, b.heap, b.freed, b.removed, b.refused, c);
  }

  lemma EnteredBalanced<T>(b: Books<T>, q: Quad, c: T, view: Conn)
    requires Balanced(b) && q !in b.entries && c !in b.heap && view.q == q && |b.entries| < TABLE_CAPACITY
    ensures Balanced(b.(entries := b.entries[q := c], contents := b.contents[q := view], heap := b.heap + {c}))
  {
    hide Partition, Keyed, Counts, Injective;
    NewBlock(b, c);
    PartitionGrows(b.entries.Values, b.heap, b.freed, b.removed, b.refused, c);
    EntryArrives(b.entries, q, c);
    EntryKeyed(b.entries, b.contents, b.counted, q, c, view);
  }

  lemma EntryKeyed<T>(entries: map<Quad, T>, contents: map<Quad, Conn>, counted: set<T>, q: Quad, c: T, view: Conn)
    requires Keyed(entries, contents, counted) && q !in entries && c !in counted && view.q == q
    ensures Keyed(entries[q := c], contents[q := view], counted)
  {
  }

  lemma OpenPublic<T>(b: Books<T>, q: Quad, c: T, view: Conn, p: Packet, nicIp: u32, sent: seq<Packet>, printed: seq<Print>)
    requires Balanced(b) && c !in b.heap
    ensures Public(AfterOpen(b, q, c, view), nicIp, sent + [p], printed)
            == Enter(Public(b, nicIp, sent, printed), q, view, p)
  {
    hide Balanced;
    NewBlock(b, c);
    SameSize(b.entries, b.contents);
  }

  lemma NewBlock<T>(b: Books<T>, c: T)
    requires Balanced(b) && c !in b.heap
    ensures c !in b.refused && c !in b.entries.Values && c !in b.counted && b.contents.Keys == b.entries.Keys
  {
  }

  lemma SameSize<A, B>(s: map<Quad, A>, t: map<Quad, B>)
    requires s.Keys == t.Keys
    ensures |s| == |t|
  {
    assert |s.Keys| == |s| && |t.Keys| == |t|;
  }

  /** Conservation on the heap: as many blocks as entries, freed, removed and refused together. */
  lemma BlocksConserved<T>(b: Books<T>)
    requires Balanced(b)
    ensures |b.heap| == |b.entries| + |b.freed| + |b.removed| + |b.refused|
  {
    ValuesSize(b.entries);
    var v := b.entries.Values;
    assert |v + b.freed| == |v| + |b.freed|;
    assert |v + b.freed + b.removed| == |v + b.freed| + |b.removed|;
    assert |v + b.freed + b.removed + b.refused| == |v + b.freed + b.removed| + |b.refused|;
  }

  lemma {:induction false} ValuesSize<T>(t: map<Quad, T>)
    requires Injective(t)
    ensures |t.Values| == |t|
    decreases |t|
  {
    if t == map[] {
      assert t.Values == {};
    } else {
      var q :| q in t;
      EntryLeaves(t, q);
      ValuesSize(t - {q});
    }
  }
}
