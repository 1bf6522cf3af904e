/** `inet_pton6` and `parse_ipv6_addr` (src/cli/parser.c:404-514, 571-581). */
module Inet6 {
  import opened SeqArith
  import opened TcpTypes
  import opened Text
  import Inet4

  const IN6ADDRSZ: nat := 16
  const INET6_ADDRSTRLEN: nat := 46

  // ----- the scan, as a function of the text -----

  /** A double octet, high byte first. */
  function Pair(v: nat): (b: Bytes)
    ensures |b| == 2
  {
    [v / 256 % 256, v % 256]
  }

  function Zeros(n: nat): (b: Bytes)
    ensures |b| == n
  {
    seq(n, _ => 0)
  }

  /** The end of the text: store the open group, then expand the gap or demand all sixteen bytes.
      `acc` are the bytes stored, `gap` where "::" stood among them, `cur` the open group. */
  function Finish(acc: Bytes, gap: Option<nat>, cur: string): (r: Option<Bytes>)
    requires AllHex(cur) && (gap.Some? ==> gap.value <= |acc|)
    ensures r.Some? ==> |r.value| == IN6ADDRSZ
  {
    if cur != [] && |acc| + 2 > IN6ADDRSZ then None
    else
      var all := if cur != [] then acc + Pair(Hex(cur)) else acc;
      match gap
      case None => if |all| == IN6ADDRSZ then Some(all) else None
      case Some(g) =>
        if |all| >= IN6ADDRSZ then None
        else Some(all[..g] + Zeros(IN6ADDRSZ - |all|) + all[g..])
  }

  function Scan(acc: Bytes, gap: Option<nat>, cur: string, rest: string): (r: Option<Bytes>)
    requires AllHex(cur) && (gap.Some? ==> gap.value <= |acc|)
    ensures r.Some? ==> |r.value| == IN6ADDRSZ
    decreases |rest|
  {
    if rest == [] then Finish(acc, gap, cur)
    else if IsHex(rest[0]) then
      if |cur| >= 4 then None else Scan(acc, gap, cur + [rest[0]], rest[1..])
    else if rest[0] == ':' then
      if cur == [] then
        if gap.Some? then None else Scan(acc, Some(|acc|), [], rest[1..])
      else if |rest| == 1 then None
      else if |acc| + 2 > IN6ADDRSZ then None
      else Scan(acc + Pair(Hex(cur)), gap, [], rest[1..])
    else if rest[0] == '.' && |acc| + 4 <= IN6ADDRSZ && Inet4.Parse4(cur + rest).Some? then
      Finish(acc + Inet4.Parse4(cur + rest).value, gap, [])
    else None
  }

  /** A leading colon must be the first of two, and only the second is scanned. */
  function Parse6(s: string): (r: Option<Bytes>)
    ensures r.Some? ==> |r.value| == IN6ADDRSZ
  {
    if s != [] && s[0] == ':' then
      if |s| >= 2 && s[1] == ':' then Scan([], None, [], s[1..]) else None
    else Scan([], None, [], s)
  }

  // ----- the grammar -----

  /** One to four hexadecimal digits. */
  predicate ValidGroup(g: string) { 1 <= |g| <= 4 && AllHex(g) }

  predicate ValidGroups(gs: seq<string>) { forall i :: 0 <= i < |gs| ==> ValidGroup(gs[i]) }

  /** An IPv4 tail: a dotted quad whose first number has at most four digits. */
  predicate ValidTail(t: string) {
    Inet4.Parse4(t).Some? && |Split(t, '.')[0]| <= 4
  }

  /** An address text: groups, at most one "::" with its place among them, at most one IPv4 tail. */
  datatype Addr = Addr(before: seq<string>, gap: bool, after: seq<string>, tail: Option<string>) {
    /** Double octets written out. */
    function Size(): nat { |before| + |after| + if tail.Some? then 2 else 0 }

    predicate Valid() {
      && ValidGroups(before) && ValidGroups(after) && (tail.Some? ==> ValidTail(tail.value))
      && (if gap then Size() <= 7 else after == [] && Size() == 8)
    }
  }

  /** Each group followed by a colon. */
  function Closed(gs: seq<string>): string {
    if gs == [] then "" else gs[0] + ":" + Closed(gs[1..])
  }

  /** What follows the last "::", or the whole text when there is none: the fields joined by colons. */
  function Tail(gs: seq<string>, tail: Option<string>): string {
    match tail
    case Some(t) => Closed(gs) + t
    case None => if gs == [] then "" else Closed(gs[..|gs| - 1]) + gs[|gs| - 1]
  }

  /** Section 2.2 of RFC 4291: fields joined by colons, "::" for the gap. */
  function Render(a: Addr): string {
    if !a.gap then Tail(a.before, a.tail)
    else if a.before == [] then "::" + Tail(a.after, a.tail)
    else Closed(a.before) + ":" + Tail(a.after, a.tail)
  }

  function Octets(gs: seq<string>): (b: Bytes)
    requires ValidGroups(gs)
    ensures |b| == 2 * |gs|
  {
    if gs == [] then [] else Octets(gs[..|gs| - 1]) + Pair(Hex(gs[|gs| - 1]))
  }

  function TailOctets(tail: Option<string>): (b: Bytes)
    requires tail.Some? ==> ValidTail(tail.value)
    ensures |b| == if tail.Some? then 4 else 0
  {
    if tail.Some? then Inet4.Parse4(tail.value).value else []
  }

  /** The bytes of an address: the gap stands for as many zeros as are missing. */
  function Value(a: Addr): (b: Bytes)
    requires a.Valid()
    ensures |b| == IN6ADDRSZ
  {
    Octets(a.before) + Zeros(IN6ADDRSZ - 2 * a.Size()) + Octets(a.after) + TailOctets(a.tail)
  }

  // ----- scanning a rendered address -----

  lemma {:induction false} ScanHex(acc: Bytes, gap: Option<nat>, cur: string, g: string, rest: string)
    requires AllHex(cur) && (gap.Some? ==> gap.value <= |acc|) && AllHex(g) && |cur| + |g| <= 4
    ensures AllHex(cur + g) && Scan(acc, gap, cur, g + rest) == Scan(acc, gap, cur + g, rest)
    decreases |g|
  {
    if g == [] {
      assert g + rest == rest && cur + g == cur;
    } else {
      ScanHex(acc, gap, cur + [g[0]], g[1..], rest);
      assert (g + rest)[1..] == g[1..] + rest;
      assert cur + [g[0]] + g[1..] == cur + g;
    }
  }

  lemma ScanGroup(acc: Bytes, gap: Option<nat>, g: string, rest: string)
    requires (gap.Some? ==> gap.value <= |acc|) && ValidGroup(g) && rest != [] && |acc| + 2 <= IN6ADDRSZ
    ensures Scan(acc, gap, [], g + ":" + rest) == Scan(acc + Pair(Hex(g)), gap, [], rest)
  {
    assert g + ":" + rest == g + (":" + rest);
    ScanHex(acc, gap, [], g, ":" + rest);
    assert [] + g == g && (":" + rest)[1..] == rest;
  }

  lemma OctetsCons(g: string, gs: seq<string>)
    requires ValidGroup(g) && ValidGroups(gs)
    ensures ValidGroups([g] + gs) && Octets([g] + gs) == Pair(Hex(g)) + Octets(gs)
  {
    if gs != [] {
      OctetsCons(g, gs[..|gs| - 1]);
      assert ([g] + gs)[..|gs|] == [g] + gs[..|gs| - 1];
    }
  }

  lemma {:induction false} ScanClosed(acc: Bytes, gap: Option<nat>, gs: seq<string>, rest: string)
    requires (gap.Some? ==> gap.value <= |acc|) && ValidGroups(gs) && rest != [] && |acc| + 2 * |gs| <= IN6ADDRSZ
    ensures Scan(acc, gap, [], Closed(gs) + rest) == Scan(acc + Octets(gs), gap, [], rest)
    decreases |gs|
  {
    hide Scan, Hex, Pair;
    if gs == [] {
      assert Closed(gs) + rest == rest && acc + Octets(gs) == acc;
    } else {
      var more := Closed(gs[1..]) + rest;
      assert Closed(gs) + rest == gs[0] + ":" + more;
      ScanGroup(acc, gap, gs[0], more);
      ScanClosed(acc + Pair(Hex(gs[0])), gap, gs[1..], rest);
      OctetsHead(acc, gs);
    }
  }

  lemma OctetsHead(acc: Bytes, gs: seq<string>)
    requires ValidGroups(gs) && gs != []
    ensures acc + Pair(Hex(gs[0])) + Octets(gs[1..]) == acc + Octets(gs)
  {
    hide Octets, Pair, Hex;
    assert ValidGroup(gs[0]);
    OctetsCons(gs[0], gs[1..]);
    assert [gs[0]] + gs[1..] == gs;
  }

  lemma ScanTail4(acc: Bytes, gap: Option<nat>, t: string)
    requires (gap.Some? ==> gap.value <= |acc|) && ValidTail(t) && |acc| + 4 <= IN6ADDRSZ
    ensures Scan(acc, gap, [], t) == Finish(acc + Inet4.Parse4(t).value, gap, [])
  {
    var g := Split(t, '.')[0];
    var rest := FirstField(t);
    assert AllHex(g);
    ScanHex(acc, gap, [], g, rest);
    assert [] + g == g;
  }

  /** A dotted quad is its first number, a dot, and more. */
  lemma FirstField(t: string) returns (rest: string)
    requires Inet4.Parse4(t).Some?
    ensures t == Split(t, '.')[0] + rest && rest != [] && rest[0] == '.'
    ensures AllDigits(Split(t, '.')[0]) && Split(t, '.')[0] != []
  {
    var ps := Split(t, '.');
    JoinSplit(t, '.');
    hide Split, Dec;
    var p0, p1, p2, p3 := ps[0], ps[1], ps[2], ps[3];
    assert ps == [p0, p1, p2] + [p3] && [p0, p1, p2] == [p0, p1] + [p2] && [p0, p1] == [p0] + [p1];
    JoinSnoc([p0, p1, p2], p3, '.');
    JoinSnoc([p0, p1], p2, '.');
    JoinSnoc([p0], p1, '.');
    JoinOne(p0, '.');
    rest := "." + p1 + "." + p2 + "." + p3;
    assert t == p0 + rest;
  }

  lemma TailNotEmpty(t: string)
    requires ValidTail(t)
    ensures t != []
  {
    var rest := FirstField(t);
  }

  lemma ScanLast(acc: Bytes, gap: Option<nat>, g: string)
    requires (gap.Some? ==> gap.value <= |acc|) && ValidGroup(g) && |acc| + 2 <= IN6ADDRSZ
    ensures Scan(acc, gap, [], g) == Finish(acc + Pair(Hex(g)), gap, [])
  {
    ScanHex(acc, gap, [], g, []);
    assert g + [] == g && [] + g == g;
  }

  /** The second colon of "::" marks the place of the gap. */
  lemma ScanGap(acc: Bytes, rest: string)
    ensures Scan(acc, None, [], ":" + rest) == Scan(acc, Some(|acc|), [], rest)
  {
    assert (":" + rest)[1..] == rest;
  }

  lemma ScanTail(acc: Bytes, gap: Option<nat>, gs: seq<string>, tail: Option<string>)
    requires (gap.Some? ==> gap.value <= |acc|) && ValidGroups(gs) && (tail.Some? ==> ValidTail(tail.value))
    requires |acc| + 2 * |gs| + (if tail.Some? then 4 else 0) <= IN6ADDRSZ
    ensures Scan(acc, gap, [], Tail(gs, tail)) == Finish(acc + Octets(gs) + TailOctets(tail), gap, [])
  {
    hide Scan, Finish, Hex, ValidTail, Inet4.Parse4, ValidGroup;
    if tail.Some? {
      TailNotEmpty(tail.value);
      ScanClosed(acc, gap, gs, tail.value);
      ScanTail4(acc + Octets(gs), gap, tail.value);
    } else if gs == [] {
      assert acc + Octets(gs) + TailOctets(tail) == acc;
      ScanNothing(acc, gap);
    } else {
      ScanGroups(acc, gap, gs);
      assert acc + Octets(gs) + [] == acc + Octets(gs);
    }
  }

  lemma ScanNothing(acc: Bytes, gap: Option<nat>)
    requires gap.Some? ==> gap.value <= |acc|
    ensures Scan(acc, gap, [], []) == Finish(acc, gap, [])
  {
  }

  lemma ScanGroups(acc: Bytes, gap: Option<nat>, gs: seq<string>)
    requires (gap.Some? ==> gap.value <= |acc|) && ValidGroups(gs) && gs != [] && |acc| + 2 * |gs| <= IN6ADDRSZ
    ensures Scan(acc, gap, [], Closed(gs[..|gs| - 1]) + gs[|gs| - 1]) == Finish(acc + Octets(gs), gap, [])
  {
    hide Scan, Finish, Hex, Closed;
    var n := |gs| - 1;
    assert ValidGroup(gs[n]);
    ScanClosed(acc, gap, gs[..n], gs[n]);
    ScanLast(acc + Octets(gs[..n]), gap, gs[n]);
    assert acc + Octets(gs[..n]) + Pair(Hex(gs[n])) == acc + Octets(gs);
  }

  lemma FirstIsHex(gs: seq<string>, rest: string)
    requires gs != [] && ValidGroups(gs)
    ensures Closed(gs) + rest != [] && IsHex((Closed(gs) + rest)[0])
  {
    assert ValidGroup(gs[0]);
  }

  lemma TailStartsHex(gs: seq<string>, tail: Option<string>)
    requires ValidGroups(gs) && (tail.Some? ==> ValidTail(tail.value)) && (gs != [] || tail.Some?)
    ensures Tail(gs, tail) != [] && IsHex(Tail(gs, tail)[0])
  {
    match tail
    case Some(t) =>
      var rest := FirstField(t);
      if gs != [] {
        FirstIsHex(gs, t);
      }
    case None =>
      var n := |gs| - 1;
      assert ValidGroup(gs[n]);
      if n > 0 {
        FirstIsHex(gs[..n], gs[n]);
      }
  }

  lemma FinishGap(before: Bytes, after: Bytes)
    requires |before| + |after| <= 14
    ensures Finish(before + after, Some(|before|), []) == Some(before + Zeros(16 - |before| - |after|) + after)
  {
    var all := before + after;
    assert all[..|before|] == before && all[|before|..] == after;
  }

  lemma GapIsAccepted(a: Addr)
    requires a.Valid() && a.gap
    ensures Parse6(Render(a)) == Some(Value(a))
  {
    hide Scan, Hex, Finish, Tail, ValidTail, ValidGroup, Inet4.Parse4;
    var acc, last := Octets(a.before), Tail(a.after, a.tail);
    if a.before == [] {
      assert Render(a)[1..] == ":" + last;
    } else {
      FirstIsHex(a.before, ":" + last);
      assert Render(a) == Closed(a.before) + (":" + last);
      ScanClosed([], None, a.before, ":" + last);
      assert [] + acc == acc;
    }
    ScanGap(acc, last);
    ScanTail(acc, Some(|acc|), a.after, a.tail);
    FinishGap(acc, Octets(a.after) + TailOctets(a.tail));
    assert acc + Octets(a.after) + TailOctets(a.tail) == acc + (Octets(a.after) + TailOctets(a.tail));
    assert acc + Zeros(16 - 2 * a.Size()) + (Octets(a.after) + TailOctets(a.tail)) == Value(a);
  }

  /** Every text of the grammar is accepted, with its value. */
  lemma RenderedIsAccepted(a: Addr)
    requires a.Valid()
    ensures Parse6(Render(a)) == Some(Value(a))
  {
    hide Scan, Hex, Tail, ValidTail, ValidGroup, Inet4.Parse4;
    if a.gap {
      GapIsAccepted(a);
    } else {
      ScanTail([], None, a.before, a.tail);
      TailStartsHex(a.before, a.tail);
      assert [] + Octets(a.before) + TailOctets(a.tail) == Octets(a.before) + TailOctets(a.tail);
      assert Value(a) == Octets(a.before) + TailOctets(a.tail);
    }
  }

  // ----- an accepted text is a rendered address -----

  /** The part of the grammar's address that the scan has read: closed groups, whether "::" was
      seen, closed groups after it. */
  datatype Prefix = Prefix(before: seq<string>, gap: bool, after: seq<string>) {
    predicate Valid() { ValidGroups(before) && ValidGroups(after) && (!gap ==> after == []) }

    function Acc(): Bytes
      requires Valid()
    {
      Octets(before) + Octets(after)
    }

    function Gap(): Option<nat> { if gap then Some(2 * |before|) else None }

    /** The text read, without the first colon of a leading "::". */
    function Text(): string { if gap then Closed(before) + ":" + Closed(after) else Closed(before) }

    /** A text does not end right after the colon that closed a group. */
    predicate Ends(cur: string, rest: string) {
      cur == [] && rest == [] ==> if gap then after == [] else before == []
    }

    function Close(g: string): Prefix {
      if gap then this.(after := after + [g]) else this.(before := before + [g])
    }
  }

  /** Render, without the first colon of a leading "::". */
  function Body(a: Addr): string {
    if !a.gap then Tail(a.before, a.tail) else Closed(a.before) + ":" + Tail(a.after, a.tail)
  }

  lemma {:induction false} ClosedSnoc(gs: seq<string>, g: string)
    ensures Closed(gs + [g]) == Closed(gs) + g + ":"
  {
    if gs == [] {
      assert [] + [g] == [g] && Closed([]) == "";
      assert Closed([g][1..]) == "";
    } else {
      ClosedSnoc(gs[1..], g);
      assert (gs + [g])[1..] == gs[1..] + [g];
      assert gs[0] + ":" + (Closed(gs[1..]) + g + ":") == gs[0] + ":" + Closed(gs[1..]) + g + ":";
    }
  }

  lemma SplitFirst(f: string, rest: string)
    requires '.' !in f && rest != [] && rest[0] == '.'
    ensures Split(f + rest, '.')[0] == f
  {
    SplitPlain(f, '.');
    SplitExtends(f, rest, '.');
  }

  lemma TailIsValid(cur: string, rest: string)
    requires AllHex(cur) && |cur| <= 4 && rest != [] && rest[0] == '.' && Inet4.Parse4(cur + rest).Some?
    ensures ValidTail(cur + rest)
  {
    SplitFirst(cur, rest);
  }

  lemma OctetsSnoc(gs: seq<string>, g: string)
    requires ValidGroups(gs) && ValidGroup(g)
    ensures ValidGroups(gs + [g]) && Octets(gs + [g]) == Octets(gs) + Pair(Hex(g))
  {
    assert (gs + [g])[..|gs|] == gs;
  }

  lemma CloseKeeps(p: Prefix, g: string)
    requires p.Valid() && ValidGroup(g)
    ensures p.Close(g).Valid() && p.Close(g).Acc() == p.Acc() + Pair(Hex(g)) && p.Close(g).Gap() == p.Gap()
    ensures p.Close(g).Text() == p.Text() + g + ":"
  {
    hide Octets, Closed, Hex;
    if p.gap {
      OctetsSnoc(p.after, g);
      ClosedSnoc(p.after, g);
      assert Octets(p.before) + (Octets(p.after) + Pair(Hex(g))) == p.Acc() + Pair(Hex(g));
      assert Closed(p.before) + ":" + (Closed(p.after) + g + ":") == p.Text() + g + ":";
    } else {
      OctetsSnoc(p.before, g);
      ClosedSnoc(p.before, g);
      NoOctets();
      assert Octets(p.before) + Pair(Hex(g)) + [] == Octets(p.before) + [] + Pair(Hex(g));
    }
  }

  lemma NoOctets()
    ensures Octets([]) == []
  {
  }

  lemma OpenGap(p: Prefix)
    requires p.Valid() && !p.gap
    ensures var n := p.(gap := true);
            n.Valid() && n.Acc() == p.Acc() && n.Gap() == Some(|p.Acc()|) && n.Text() == p.Text() + ":"
  {
    assert Closed([]) == "";
  }

  /** The text is over: what was read is an address. */
  lemma EndOfText(p: Prefix, cur: string) returns (a: Addr)
    requires p.Valid() && AllHex(cur) && |cur| <= 4 && p.Ends(cur, [])
    requires Finish(p.Acc(), p.Gap(), cur).Some?
    ensures a.Valid() && Finish(p.Acc(), p.Gap(), cur) == Some(Value(a)) && Body(a) == p.Text() + cur
  {
    hide Hex, Octets, Finish, Closed, Value;
    if cur == [] {
      a := Addr(p.before, p.gap, p.after, None);
      assert p.Acc() + [] == p.Acc();
      FinishIsValue(a, p.Acc(), p.Gap(), cur);
      NothingClosed();
      assert p.Text() + cur == p.Text();
    } else {
      var n := p.Close(cur);
      CloseKeeps(p, cur);
      a := Addr(n.before, n.gap, n.after, None);
      assert n.Acc() + [] == n.Acc();
      FinishIsValue(a, p.Acc(), p.Gap(), cur);
      LastGroup(p, cur);
    }
  }

  lemma LastGroup(p: Prefix, cur: string)
    requires p.Valid()
    ensures var n := p.Close(cur); Body(Addr(n.before, n.gap, n.after, None)) == p.Text() + cur
  {
    hide Closed;
    if p.gap {
      assert (p.after + [cur])[..|p.after|] == p.after;
      assert Closed(p.before) + ":" + (Closed(p.after) + cur) == Closed(p.before) + ":" + Closed(p.after) + cur;
    } else {
      assert (p.before + [cur])[..|p.before|] == p.before;
    }
  }

  /** What `Finish` makes of the bytes of an address that it accepts is the address's value. */
  lemma FinishIsValue(a: Addr, acc: Bytes, gap: Option<nat>, cur: string)
    requires ValidGroups(a.before) && ValidGroups(a.after) && (a.tail.Some? ==> ValidTail(a.tail.value))
    requires !a.gap ==> a.after == []
    requires AllHex(cur) && gap == (if a.gap then Some(2 * |a.before|) else None) && (gap.Some? ==> gap.value <= |acc|)
    requires (if cur == [] then acc else acc + Pair(Hex(cur))) == Octets(a.before) + Octets(a.after) + TailOctets(a.tail)
    requires Finish(acc, gap, cur).Some?
    ensures a.Valid() && Finish(acc, gap, cur) == Some(Value(a))
  {
    hide Hex, ValidTail, ValidGroup, Octets, TailOctets, Pair, Inet4.Parse4;
    var all := if cur == [] then acc else acc + Pair(Hex(cur));
    var x, y, z := Octets(a.before), Octets(a.after), TailOctets(a.tail);
    assert |all| == 2 * a.Size();
    if a.gap {
      Cut(x, y, z);
    } else {
      Fill(x, y, z);
    }
  }

  lemma Cut(x: Bytes, y: Bytes, z: Bytes)
    requires |x| + |y| + |z| <= IN6ADDRSZ
    ensures var all := x + y + z; var zs := Zeros(IN6ADDRSZ - |all|);
            all[..|x|] + zs + all[|x|..] == x + zs + y + z
  {
    var all := x + y + z;
    assert all[..|x|] == x && all[|x|..] == y + z;
  }

  lemma Fill(x: Bytes, y: Bytes, z: Bytes)
    ensures x + Zeros(0) + y + z == x + y + z
  {
  }

  /** The text ends in an IPv4 tail. */
  lemma EndInTail(p: Prefix, t: string) returns (a: Addr)
    requires p.Valid() && ValidTail(t)
    requires Finish(p.Acc() + Inet4.Parse4(t).value, p.Gap(), []).Some?
    ensures a.Valid() && Finish(p.Acc() + Inet4.Parse4(t).value, p.Gap(), []) == Some(Value(a)) && Body(a) == p.Text() + t
  {
    hide Octets, Inet4.Parse4;
    a := Addr(p.before, p.gap, p.after, Some(t));
    FinishIsValue(a, p.Acc() + Inet4.Parse4(t).value, p.Gap(), []);
    assert Closed(p.before) + ":" + (Closed(p.after) + t) == Closed(p.before) + ":" + Closed(p.after) + t;
  }

  /** From any point of a successful scan: the text read and the text to come are one address. */
  lemma {:induction false} ScanIsSound(p: Prefix, cur: string, rest: string) returns (a: Addr)
    requires p.Valid() && AllHex(cur) && |cur| <= 4 && p.Ends(cur, rest)
    requires Scan(p.Acc(), p.Gap(), cur, rest).Some?
    ensures a.Valid() && Scan(p.Acc(), p.Gap(), cur, rest) == Some(Value(a)) && Body(a) == p.Text() + cur + rest
    decreases |rest|
  {
    hide Octets, ValidTail, Inet4.Parse4, Finish, Hex, Closed, Value, Body;
    if rest == [] {
      a := EndOfText(p, cur);
      assert p.Text() + cur + rest == p.Text() + cur;
    } else if IsHex(rest[0]) {
      a := ScanIsSound(p, cur + [rest[0]], rest[1..]);
      assert p.Text() + (cur + [rest[0]]) + rest[1..] == p.Text() + cur + rest;
    } else if rest[0] == ':' {
      if cur == [] {
        OpenGap(p);
        a := ScanIsSound(p.(gap := true), [], rest[1..]);
        assert p.Text() + ":" + [] + rest[1..] == p.Text() + cur + rest;
      } else {
        CloseKeeps(p, cur);
        a := ScanIsSound(p.Close(cur), [], rest[1..]);
        assert p.Text() + cur + ":" + [] + rest[1..] == p.Text() + cur + rest;
      }
    } else {
      TailIsValid(cur, rest);
      a := EndInTail(p, cur + rest);
      assert p.Text() + (cur + rest) == p.Text() + cur + rest;
    }
  }

  /** A body that starts with a colon is a leading "::", and no other body does. */
  lemma BodyIsRender(a: Addr)
    requires a.Valid()
    ensures a.gap && a.before == [] ==> Render(a) == ":" + Body(a) && Body(a) != [] && Body(a)[0] == ':'
    ensures !(a.gap && a.before == []) ==> Render(a) == Body(a) && Body(a) != [] && Body(a)[0] != ':'
  {
    if a.gap {
      if a.before == [] {
        assert Closed([]) == "" && ":" + (":" + Tail(a.after, a.tail)) == "::" + Tail(a.after, a.tail);
      } else {
        assert Closed(a.before) + ":" + Tail(a.after, a.tail) == Closed(a.before) + (":" + Tail(a.after, a.tail));
        FirstIsHex(a.before, ":" + Tail(a.after, a.tail));
      }
    } else {
      TailStartsHex(a.before, a.tail);
    }
  }

  lemma AcceptedIsRendered(s: string) returns (a: Addr)
    requires Parse6(s).Some?
    ensures a.Valid() && Render(a) == s && Parse6(s) == Some(Value(a))
  {
    hide Scan, Body, Render, Value, Closed, Octets;
    var p := Prefix([], false, []);
    assert p.Valid() && p.Acc() == [] by { NoOctets(); }
    assert p.Text() == "" by { NothingClosed(); }
    if s != [] && s[0] == ':' {
      a := ScanIsSound(p, [], s[1..]);
      BodyIsRender(a);
      assert "" + [] + s[1..] == s[1..] && ":" + s[1..] == s;
    } else {
      a := ScanIsSound(p, [], s);
      BodyIsRender(a);
      assert "" + [] + s == s;
    }
  }

  lemma NothingClosed()
    ensures Closed([]) == ""
  {
  }

  /** `inet_pton6` accepts exactly the texts of the grammar, each with its value. */
  lemma Parse6Grammar(s: string)
    ensures Parse6(s).Some? <==> exists a: Addr :: a.Valid() && s == Render(a)
    ensures forall a: Addr :: a.Valid() && s == Render(a) ==> Parse6(s) == Some(Value(a))
  {
    hide Parse6, Render, Value;
    forall a: Addr | a.Valid() && s == Render(a) ensures Parse6(s) == Some(Value(a)) {
      RenderedIsAccepted(a);
    }
    if Parse6(s).Some? {
      var a := AcceptedIsRendered(s);
    }
  }

  // ----- printing -----

  /** A run of zero groups to write as "::". */
  datatype Run = Run(first: nat, count: nat)

  function Word(b: Bytes, i: nat): u16
    requires |b| == IN6ADDRSZ && i < 8
  {
    var high: int := b[2 * i];
    high * 256 + b[2 * i + 1]
  }

  function Words(b: Bytes, lo: nat, hi: nat): (gs: seq<string>)
    requires |b| == IN6ADDRSZ && lo <= hi <= 8
    ensures |gs| == hi - lo
  {
    if lo == hi then [] else Words(b, lo, hi - 1) + [PrintHex(Word(b, hi - 1))]
  }

  /** The choices of section 2.2 of RFC 4291: which zero groups "::" stands for, if any, and whether
      the last four bytes are written as a dotted quad. */
  predicate Printable(b: Bytes, run: Option<Run>, dotted: bool) {
    |b| == IN6ADDRSZ
    && (run.Some? ==>
          run.value.count >= 1 && run.value.first + run.value.count <= (if dotted then 6 else 8)
          && forall i :: 2 * run.value.first <= i < 2 * (run.value.first + run.value.count) ==> b[i] == 0)
  }

  function AddrOf(b: Bytes, run: Option<Run>, dotted: bool): Addr
    requires Printable(b, run, dotted)
  {
    var n := if dotted then 6 else 8;
    var tail := if dotted then Some(Inet4.Print4(b[12..])) else None;
    match run
    case None => Addr(Words(b, 0, n), false, [], tail)
    case Some(r) => Addr(Words(b, 0, r.first), true, Words(b, r.first + r.count, n), tail)
  }

  function Print6(b: Bytes, run: Option<Run>, dotted: bool): string
    requires Printable(b, run, dotted)
  {
    Render(AddrOf(b, run, dotted))
  }

  lemma PairWord(b: Bytes, i: nat)
    requires |b| == IN6ADDRSZ && i < 8
    ensures Pair(Word(b, i)) == b[2 * i..2 * i + 2]
  {
  }

  lemma {:induction false} WordsOctets(b: Bytes, lo: nat, hi: nat)
    requires |b| == IN6ADDRSZ && lo <= hi <= 8
    ensures ValidGroups(Words(b, lo, hi)) && Octets(Words(b, lo, hi)) == b[2 * lo..2 * hi]
    decreases hi
  {
    hide Word, Octets, Hex, PrintHex, Pair, ValidGroups;
    if lo < hi {
      WordsOctets(b, lo, hi - 1);
      PrintedGroup(Word(b, hi - 1));
      OctetsSnoc(Words(b, lo, hi - 1), PrintHex(Word(b, hi - 1)));
      PairWord(b, hi - 1);
      Adjacent(b, 2 * lo, 2 * (hi - 1), 2 * hi);
    } else {
      NoOctets();
      NoGroups();
    }
  }

  lemma PrintedGroup(v: u16)
    ensures ValidGroup(PrintHex(v)) && Hex(PrintHex(v)) == v
  {
    PrintHexShort(v);
  }

  lemma Adjacent(b: Bytes, i: nat, j: nat, k: nat)
    requires i <= j <= k <= |b|
    ensures b[i..j] + b[j..k] == b[i..k]
  {
  }

  lemma PrintedTail(b: Bytes)
    requires |b| == 4
    ensures ValidTail(Inet4.Print4(b)) && Inet4.Parse4(Inet4.Print4(b)) == Some(b)
  {
    Inet4.Print4Parses(b);
    var ps := [PrintDec(b[0]), PrintDec(b[1]), PrintDec(b[2]), PrintDec(b[3])];
    assert Inet4.ValidQuad(ps);
    Inet4.NoDots(ps);
    SplitJoin(ps, '.');
    PrintDecShort(b[0]);
  }

  /** Printing any address in any of these ways and parsing it gives back the same sixteen bytes. */
  lemma PrintParses(b: Bytes, run: Option<Run>, dotted: bool)
    requires Printable(b, run, dotted)
    ensures Parse6(Print6(b, run, dotted)) == Some(b)
  {
    hide Parse6, Words, Octets, Zeros, Inet4.Print4, Inet4.Parse4, ValidTail, Render, ValidGroups;
    var a := AddrOf(b, run, dotted);
    var n := if dotted then 6 else 8;
    if dotted {
      PrintedTail(b[12..]);
    }
    NoOctets();
    match run {
      case None =>
        WordsOctets(b, 0, n);
        NoGroups();
      case Some(r) =>
        WordsOctets(b, 0, r.first);
        WordsOctets(b, r.first + r.count, n);
    }
    RenderedIsAccepted(a);
    ValueOfPrinted(b, run, dotted, a);
  }

  lemma NoGroups()
    ensures ValidGroups([])
  {
  }

  lemma ValueOfPrinted(b: Bytes, run: Option<Run>, dotted: bool, a: Addr)
    requires Printable(b, run, dotted) && a == AddrOf(b, run, dotted) && a.Valid()
    requires dotted ==> Inet4.Parse4(Inet4.Print4(b[12..])) == Some(b[12..])
    requires match run
             case None => Octets(a.before) == b[..if dotted then 12 else 16] && Octets(a.after) == []
             case Some(r) => Octets(a.before) == b[..2 * r.first]
                             && Octets(a.after) == b[2 * (r.first + r.count)..if dotted then 12 else 16]
    ensures Value(a) == b
  {
    hide Words, Octets, Inet4.Print4, Inet4.Parse4, ValidTail;
    var n := if dotted then 12 else 16;
    assert TailOctets(a.tail) == b[n..];
    match run
    case None =>
      assert b[..n] + Zeros(0) + [] + b[n..] == b;
    case Some(r) =>
      var i, j := 2 * r.first, 2 * (r.first + r.count);
      assert Zeros(2 * r.count) == b[i..j];
      Adjacent(b, 0, i, j);
      Adjacent(b, 0, j, n);
      Adjacent(b, 0, n, 16);
  }

  lemma {:induction false} ClosedShort(gs: seq<string>)
    requires ValidGroups(gs)
    ensures |Closed(gs)| <= 5 * |gs|
  {
    if gs != [] {
      ClosedShort(gs[1..]);
      assert ValidGroup(gs[0]);
    }
  }

  /** Every printed address fits the length that `parse_ipv6_addr` admits. */
  lemma PrintedFits(b: Bytes, run: Option<Run>, dotted: bool)
    requires Printable(b, run, dotted)
    ensures |Print6(b, run, dotted)| < INET6_ADDRSTRLEN
  {
    hide Closed, Words, Inet4.Print4;
    var a := AddrOf(b, run, dotted);
    var n := if dotted then 6 else 8;
    if dotted {
      Inet4.Print4Fits(b[12..]);
    }
    match run
    case None =>
      WordsOctets(b, 0, n);
      FieldsShort(a.before, a.tail);
    case Some(r) =>
      WordsOctets(b, 0, r.first);
      WordsOctets(b, r.first + r.count, n);
      ClosedShort(a.before);
      FieldsShort(a.after, a.tail);
  }

  lemma FieldsShort(gs: seq<string>, tail: Option<string>)
    requires ValidGroups(gs)
    ensures |Tail(gs, tail)| <= (if tail.Some? then 5 * |gs| + |tail.value| else if gs == [] then 0 else 5 * |gs| - 1)
  {
    hide Closed;
    if tail.Some? {
      ClosedShort(gs);
    } else if gs != [] {
      ClosedShort(gs[..|gs| - 1]);
      assert ValidGroup(gs[|gs| - 1]);
    }
  }

  // ----- the code -----

  /** The shift by hand: the suffix moves to the end of the buffer, byte by byte from its last, and
      zeros take its place; no byte is overwritten before it has been read. */
  method ExpandGap(tmp: array<u8>, colonp: nat, tp: nat)
    requires tmp.Length == IN6ADDRSZ && colonp <= tp < IN6ADDRSZ
    requires forall k :: tp <= k < IN6ADDRSZ ==> tmp[k] == 0
    modifies tmp
    ensures tmp[..] == old(tmp[..colonp]) + Zeros(IN6ADDRSZ - tp) + old(tmp[colonp..tp])
  {
    var n := tp - colonp;
    for i := 1 to n + 1
      invariant forall k :: 0 <= k <= tp - i ==> tmp[k] == old(tmp[k])
      invariant forall k :: tp - i < k <= IN6ADDRSZ - i ==> tmp[k] == 0
      invariant forall k :: IN6ADDRSZ - i < k < IN6ADDRSZ ==> tmp[k] == old(tmp[k - (IN6ADDRSZ - tp)])
    {
      tmp[IN6ADDRSZ - i] := tmp[colonp + n - i];
      tmp[colonp + n - i] := 0;
    }
  }

  /** One character of the scan. */
  lemma ScanStep(acc: Bytes, gap: Option<nat>, cur: string, s: string, i: nat)
    requires AllHex(cur) && (gap.Some? ==> gap.value <= |acc|) && i < |s|
    ensures IsHex(s[i]) ==>
              (AllHex(cur + [s[i]])
               && Scan(acc, gap, cur, s[i..]) == if |cur| >= 4 then None else Scan(acc, gap, cur + [s[i]], s[i + 1..]))
    ensures s[i] == ':' && cur == [] ==>
              Scan(acc, gap, cur, s[i..]) == (if gap.Some? then None else Scan(acc, Some(|acc|), [], s[i + 1..]))
    ensures s[i] == ':' && cur != [] ==>
              Scan(acc, gap, cur, s[i..]) ==
              (if i + 1 == |s| || |acc| + 2 > IN6ADDRSZ then None else Scan(acc + Pair(Hex(cur)), gap, [], s[i + 1..]))
    ensures !IsHex(s[i]) && s[i] != ':' ==>
              Scan(acc, gap, cur, s[i..]) ==
              (if s[i] == '.' && |acc| + 4 <= IN6ADDRSZ && Inet4.Parse4(cur + s[i..]).Some?
               then Finish(acc + Inet4.Parse4(cur + s[i..]).value, gap, []) else None)
  {
    hide Finish, Hex, Inet4.Parse4;
    assert s[i..][1..] == s[i + 1..];
  }

  lemma ScanDone(acc: Bytes, gap: Option<nat>, cur: string)
    requires AllHex(cur) && (gap.Some? ==> gap.value <= |acc|)
    ensures Scan(acc, gap, cur, []) == Finish(acc, gap, cur)
  {
  }

  function GapAt(colonp: int): Option<nat> { if colonp < 0 then None else Some(colonp) }

  /** Where the loop stands: `tp` bytes stored, two for every double octet counted, zeros behind. */
  predicate Standing(buf: Bytes, tp: nat, colonp: int, dbloctCount: nat) {
    |buf| == IN6ADDRSZ && tp == 2 * dbloctCount <= IN6ADDRSZ && -1 <= colonp <= tp
    && forall k :: tp <= k < IN6ADDRSZ ==> buf[k] == 0
  }

  /** Append the two bytes of `val`, high byte first. */
  method StorePair(tmp: array<u8>, tp: nat, val: nat)
    requires tmp.Length == IN6ADDRSZ && tp + 2 <= IN6ADDRSZ
    modifies tmp
    ensures tmp[..tp + 2] == old(tmp[..tp]) + Pair(val) && tmp[tp + 2..] == old(tmp[tp + 2..])
  {
    tmp[tp] := val / 256 % 256;
    tmp[tp + 1] := val % 256;
  }

  /** The loop of `inet_pton6` over the text from `src[start]` on. `ok` is false on rejection;
      otherwise what is left to do is `Finish`. */
  method ScanText(src: string, start: nat, tmp: array<u8>)
    returns (ok: bool, tp: nat, colonp: int, sawXdigit: bool, val: nat, dbloctCount: nat, ghost cur: string)
    requires start <= |src| && tmp.Length == IN6ADDRSZ && tmp[..] == Zeros(IN6ADDRSZ)
    modifies tmp
    ensures ok ==> Standing(tmp[..], tp, colonp, dbloctCount)
                   && AllHex(cur) && (sawXdigit <==> cur != []) && (sawXdigit ==> val == Hex(cur) <= 0xffff)
                   && Scan([], None, [], src[start..]) == Finish(tmp[..tp], GapAt(colonp), cur)
    ensures !ok ==> Scan([], None, [], src[start..]) == None
  {
    hide Scan, Finish, Hex, Pair, Inet4.Parse4;
    var i, curtok, countXdigit := start, start, 0;
    tp, colonp, sawXdigit, val, dbloctCount, cur, ok := 0, -1, false, 0, 0, "", false;
    assert tmp[..0] == [];
    HexNone();
    while i < |src|
      invariant start <= i <= |src| && Standing(tmp[..], tp, colonp, dbloctCount)
      invariant AllHex(cur) && |cur| == countXdigit <= 4 && (sawXdigit <==> cur != [])
      invariant val == Hex(cur) <= 0xffff
      invariant start <= curtok <= i && cur == src[curtok..i]
      invariant Scan([], None, [], src[start..]) == Scan(tmp[..tp], GapAt(colonp), cur, src[i..])
      decreases |src| - i
    {
      var ch := src[i];
      ScanStep(tmp[..tp], GapAt(colonp), cur, src, i);
      assert src[curtok..] == cur + src[i..];
      i := i + 1;
      if IsHex(ch) {
        if countXdigit >= 4 {
          return;
        }
        HexSnoc(cur, ch);
        assert src[curtok..i] == src[curtok..i - 1] + [ch];
        cur := cur + [ch];
        FourDigitsFit(cur);
        val := val * 16 + DigitValue(ch);
        assert val <= 0xffff;
        if val > 0xffff {
          return;
        }
        sawXdigit, countXdigit := true, countXdigit + 1;
        continue;
      }
      if ch == ':' {
        curtok := i;
        assert src[curtok..i] == [];
        if !sawXdigit {
          if colonp >= 0 {
            return;
          }
          colonp := tp;
          continue;
        } else if i == |src| {
          return;
        }
        if tp + 2 > IN6ADDRSZ {
          return;
        }
        StorePair(tmp, tp, val);
        tp, dbloctCount := tp + 2, dbloctCount + 1;
        sawXdigit, countXdigit, val, cur := false, 0, 0, "";
        continue;
      }
      if ch == '.' && tp + Inet4.INADDRSZ <= IN6ADDRSZ {
        var dotted := Inet4.InetPton4(src[curtok..], tmp, tp);
        if dotted {
          tp := tp + Inet4.INADDRSZ;
          sawXdigit, cur := false, "";
          dbloctCount := dbloctCount + 2;
          ok := true;
          return;
        }
      }
      return;
    }
    assert src[i..] == [];
    ScanDone(tmp[..tp], GapAt(colonp), cur);
    ok := true;
  }

  lemma HexNone()
    ensures Hex([]) == 0
  {
  }

  /** `inet_pton6`: sixteen bytes on success, and `dst` untouched on rejection. */
  method InetPton6(src: string, dst: array<u8>) returns (ok: bool)
    requires dst.Length == IN6ADDRSZ
    modifies dst
    ensures ok <==> Parse6(src).Some?
    ensures ok ==> dst[..] == Parse6(src).value
    ensures !ok ==> dst[..] == old(dst[..])
  {
    hide Scan, Hex;
    var tmp := new u8[IN6ADDRSZ](_ => 0);
    var start := 0;
    if src != [] && src[0] == ':' {
      if |src| < 2 || src[1] != ':' {
        return false;
      }
      start := 1;
    }
    assert tmp[..] == Zeros(IN6ADDRSZ);
    assert src[0..] == src && Parse6(src) == Scan([], None, [], src[start..]);
    var scanned, tp, colonp, sawXdigit, val, dbloctCount, cur := ScanText(src, start, tmp);
    if !scanned {
      return false;
    }
    ok := Complete(tmp, tp, colonp, sawXdigit, val, dbloctCount, cur);
    if !ok {
      return;
    }
    forall k | 0 <= k < IN6ADDRSZ {
      dst[k] := tmp[k];
    }
  }

  /** After the loop: store the last group, expand the gap, and see whether the buffer is full. */
  method Complete(tmp: array<u8>, tp0: nat, colonp: int, sawXdigit: bool, val: nat, dbloct0: nat, ghost cur: string) returns (ok: bool)
    requires tmp.Length == IN6ADDRSZ && Standing(tmp[..], tp0, colonp, dbloct0)
    requires AllHex(cur) && (sawXdigit <==> cur != []) && (sawXdigit ==> val == Hex(cur) <= 0xffff)
    modifies tmp
    ensures ok <==> Finish(old(tmp[..tp0]), GapAt(colonp), cur).Some?
    ensures ok ==> tmp[..] == Finish(old(tmp[..tp0]), GapAt(colonp), cur).value
  {
    hide Hex;
    var tp, dbloctCount := tp0, dbloct0;
    if sawXdigit {
      if tp + 2 > IN6ADDRSZ {
        return false;
      }
      StorePair(tmp, tp, val);
      tp, dbloctCount := tp + 2, dbloctCount + 1;
    }
    ghost var all := tmp[..tp];
    assert all == if cur != [] then old(tmp[..tp0]) + Pair(Hex(cur)) else old(tmp[..tp0]);
    if colonp >= 0 {
      if dbloctCount == 8 {
        return false;
      }
      assert forall k :: tp <= k < IN6ADDRSZ ==> tmp[k] == tmp[tp..][k - tp];
      ExpandGap(tmp, colonp, tp);
      tp := IN6ADDRSZ;
    }
    return tp == IN6ADDRSZ;
  }

  /** `parse_ipv6_addr` */
  method ParseIpv6Addr(token: string, ipv6: array<u8>) returns (status: int)
    requires ipv6.Length == IN6ADDRSZ
    modifies ipv6
    ensures status == 0 <==> |token| < 46 && Parse6(token).Some?
    ensures status == 0 ==> ipv6[..] == Parse6(token).value
    ensures status != 0 ==> status == -22 && ipv6[..] == old(ipv6[..])
  {
    if |token| >= INET6_ADDRSTRLEN {
      return -22;
    }
    var ok := InetPton6(token, ipv6);
    if !ok {
      return -22;
    }
    return 0;
  }
}
