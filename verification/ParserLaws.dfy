/** The address parsers of src/cli/parser.c by their texts: which digit every character
    is, which fields are accepted and in which order they become bytes, and that the case of a letter
    never matters. */
module ParserLaws {
  import opened SeqArith
  import opened TcpTypes
  import opened Text
  import Inet4
  import Inet6
  import EtherAddr

  // ----- digits -----

  const LOWER_DIGITS := "0123456789abcdef"
  const UPPER_DIGITS := "0123456789ABCDEF"

  /** The value of a hexadecimal digit is its index in either row, and no other character is one. */
  lemma DigitRows(c: char)
    ensures IsHex(c) <==> c in LOWER_DIGITS || c in UPPER_DIGITS
    ensures IsDigit(c) <==> c in LOWER_DIGITS[..10]
    ensures forall d :: 0 <= d < 16 && (c == LOWER_DIGITS[d] || c == UPPER_DIGITS[d]) ==> IsHex(c) && DigitValue(c) == d
  {
    if IsHex(c) {
      var d := DigitValue(c);
      assert LOWER_DIGITS[d] == c || UPPER_DIGITS[d] == c;
      if IsDigit(c) {
        assert LOWER_DIGITS[..10][d] == c;
      }
    }
  }

  /** Letters of either case are one letter. */
  function Lower(c: char): char {
    if 'A' <= c <= 'Z' then (c as int - 'A' as int + 'a' as int) as char else c
  }

  predicate SameButCase(s: string, t: string) {
    |s| == |t| && forall i :: 0 <= i < |s| ==> Lower(s[i]) == Lower(t[i])
  }

  lemma SameDigit(c: char, d: char)
    requires Lower(c) == Lower(d)
    ensures (IsHex(c) <==> IsHex(d)) && (IsHex(c) ==> DigitValue(c) == DigitValue(d))
    ensures IsDigit(c) || IsDigit(d) || c == ':' || d == ':' || c == '.' || d == '.' ==> c == d
  {
  }

  lemma SameParts(s: string, t: string, i: nat)
    requires SameButCase(s, t) && i <= |s|
    ensures SameButCase(s[..i], t[..i]) && SameButCase(s[i..], t[i..])
  {
  }

  lemma SameConcat(s: string, t: string, u: string, v: string)
    requires SameButCase(s, t) && SameButCase(u, v)
    ensures SameButCase(s + u, t + v)
  {
  }

  lemma {:induction false} SameHex(s: string, t: string)
    requires SameButCase(s, t)
    ensures AllHex(s) <==> AllHex(t)
    ensures AllHex(s) ==> Hex(s) == Hex(t)
  {
    forall i | 0 <= i < |s| ensures IsHex(s[i]) <==> IsHex(t[i]) {
      SameDigit(s[i], t[i]);
    }
    if s != [] && AllHex(s) {
      var n := |s| - 1;
      SameParts(s, t, n);
      SameHex(s[..n], t[..n]);
      SameDigit(s[n], t[n]);
    }
  }

  lemma SameDecimal(s: string, t: string)
    requires SameButCase(s, t) && AllDigits(s)
    ensures s == t
  {
    forall i | 0 <= i < |s| ensures s[i] == t[i] {
      SameDigit(s[i], t[i]);
    }
  }

  predicate SameFields(ps: seq<string>, qs: seq<string>) {
    |ps| == |qs| && forall i :: 0 <= i < |ps| ==> SameButCase(ps[i], qs[i])
  }

  lemma {:induction false} SplitCase(s: string, t: string, sep: char)
    requires SameButCase(s, t) && (sep == ':' || sep == '.')
    ensures SameFields(Split(s, sep), Split(t, sep))
  {
    hide Lower, Split, IsHex, DigitValue, SameFields, SameButCase;
    var n := SameEnds(s, t);
    if s == [] {
      SplitNothing(sep);
    } else {
      SplitCase(s[..n], t[..n], sep);
      SameDigit(s[n], t[n]);
      SplitSnoc(s[..n], s[n], sep);
      SplitSnoc(t[..n], t[n], sep);
      SnocFields(Split(s[..n], sep), Split(t[..n], sep), s[n], t[n]);
    }
  }

  lemma SameEnds(s: string, t: string) returns (n: nat)
    requires SameButCase(s, t)
    ensures |s| == |t|
    ensures s != [] ==>
              n == |s| - 1 && SameButCase(s[..n], t[..n]) && Lower(s[n]) == Lower(t[n])
              && s == s[..n] + [s[n]] && t == t[..n] + [t[n]]
  {
    n := if s == [] then 0 else |s| - 1;
  }

  lemma SplitNothing(sep: char)
    ensures Split("", sep) == [""] && SameFields([""], [""])
  {
  }

  lemma SnocFields(ps: seq<string>, qs: seq<string>, c: char, d: char)
    requires ps != [] && SameFields(ps, qs) && Lower(c) == Lower(d)
    ensures SameFields(ps + [""], qs + [""])
    ensures SameFields(ps[..|ps| - 1] + [Last(ps) + [c]], qs[..|qs| - 1] + [Last(qs) + [d]])
  {
    hide Lower;
    SameConcat(Last(ps), Last(qs), [c], [d]);
  }

  // ----- the parsers -----

  lemma QuadCase(ps: seq<string>, qs: seq<string>)
    requires SameFields(ps, qs) && Inet4.ValidQuad(ps)
    ensures ps == qs
  {
    forall i | 0 <= i < 4 ensures ps[i] == qs[i] {
      Inet4.ValidFields(ps, i);
      SameDecimal(ps[i], qs[i]);
    }
  }

  lemma Parse4Case(s: string, t: string)
    requires SameButCase(s, t)
    ensures Inet4.Parse4(s) == Inet4.Parse4(t)
  {
    hide Split;
    var ps, qs := Split(s, '.'), Split(t, '.');
    SplitCase(s, t, '.');
    if Inet4.ValidQuad(ps) {
      QuadCase(ps, qs);
    } else if Inet4.ValidQuad(qs) {
      assert SameFields(qs, ps);
      QuadCase(qs, ps);
    }
  }

  lemma FinishCase(acc: Bytes, gap: Option<nat>, cur: string, cur': string)
    requires AllHex(cur) && AllHex(cur') && (gap.Some? ==> gap.value <= |acc|) && SameButCase(cur, cur')
    ensures Inet6.Finish(acc, gap, cur) == Inet6.Finish(acc, gap, cur')
  {
    hide Hex;
    SameHex(cur, cur');
  }

  lemma {:induction false} ScanCase(acc: Bytes, gap: Option<nat>, cur: string, cur': string, rest: string, rest': string)
    requires AllHex(cur) && AllHex(cur') && (gap.Some? ==> gap.value <= |acc|)
    requires SameButCase(cur, cur') && SameButCase(rest, rest')
    ensures Inet6.Scan(acc, gap, cur, rest) == Inet6.Scan(acc, gap, cur', rest')
    decreases |rest|
  {
    hide Hex, Inet6.Finish, Inet4.Parse4, DigitValue, IsHex, Lower;
    SameHex(cur, cur');
    FinishCase(acc, gap, cur, cur');
    if rest != [] {
      SameDigit(rest[0], rest'[0]);
      SameParts(rest, rest', 1);
      SameConcat(cur, cur', rest, rest');
      Parse4Case(cur + rest, cur' + rest');
      if IsHex(rest[0]) {
        SameConcat(cur, cur', [rest[0]], [rest'[0]]);
        ScanCase(acc, gap, cur + [rest[0]], cur' + [rest'[0]], rest[1..], rest'[1..]);
      } else if rest[0] == ':' {
        if cur == [] {
          if gap == None {
            ScanCase(acc, Some(|acc|), [], [], rest[1..], rest'[1..]);
          }
        } else if |acc| + 2 <= Inet6.IN6ADDRSZ {
          ScanCase(acc + Inet6.Pair(Hex(cur)), gap, [], [], rest[1..], rest'[1..]);
        }
      }
    }
  }

  /** `inet_pton6` reads texts that differ in the case of letters alike. */
  lemma Parse6Case(s: string, t: string)
    requires SameButCase(s, t)
    ensures Inet6.Parse6(s) == Inet6.Parse6(t)
  {
    hide Inet6.Scan, Lower;
    forall i | 0 <= i < |s| ensures s[i] == ':' <==> t[i] == ':' {
      SameDigit(s[i], t[i]);
    }
    ScanCase([], None, [], [], s, t);
    if s != [] {
      SameParts(s, t, 1);
      ScanCase([], None, [], [], s[1..], t[1..]);
    }
  }

  lemma {:induction false} ByteFieldsCase(fs: seq<string>, gs: seq<string>)
    requires SameFields(fs, gs)
    ensures EtherAddr.Fields(fs, 0xff) ==> EtherAddr.Fields(gs, 0xff) && EtherAddr.ByteFields(fs) == EtherAddr.ByteFields(gs)
    ensures EtherAddr.Fields(fs, 0xffff) ==> EtherAddr.Fields(gs, 0xffff) && EtherAddr.PairFields(fs) == EtherAddr.PairFields(gs)
  {
    hide Hex, Lower;
    forall i | 0 <= i < |fs| ensures AllHex(fs[i]) ==> AllHex(gs[i]) && Hex(fs[i]) == Hex(gs[i]) {
      SameHex(fs[i], gs[i]);
    }
    if fs != [] {
      ByteFieldsCase(fs[..|fs| - 1], gs[..|gs| - 1]);
    }
  }

  /** `my_ether_aton` likewise. */
  lemma ParseMacCase(s: string, t: string)
    requires SameButCase(s, t)
    ensures EtherAddr.ParseMac(s) == EtherAddr.ParseMac(t)
  {
    hide Split, EtherAddr.ByteFields, EtherAddr.PairFields, Hex, Lower;
    SplitCase(s, t, ':');
    var fs, gs := Split(s, ':'), Split(t, ':');
    assert SameFields(gs, fs);
    ByteFieldsCase(fs, gs);
    ByteFieldsCase(gs, fs);
  }

  /** Any printed address, each of its digits in either case, gives its sixteen bytes back. */
  lemma PrintParsesInAnyCase(b: Bytes, run: Option<Inet6.Run>, dotted: bool, t: string)
    requires Inet6.Printable(b, run, dotted) && SameButCase(Inet6.Print6(b, run, dotted), t)
    ensures Inet6.Parse6(t) == Some(b) && |t| < 46
  {
    hide Inet6.Parse6, Inet6.Print6, Lower;
    Inet6.PrintParses(b, run, dotted);
    Inet6.PrintedFits(b, run, dotted);
    Parse6Case(Inet6.Print6(b, run, dotted), t);
  }

  lemma PrintedMacInAnyCase(b: Bytes, t: string)
    requires |b| == 6 && (SameButCase(EtherAddr.PrintSix(b), t) || SameButCase(EtherAddr.PrintThree(b), t))
    ensures EtherAddr.ParseMac(t) == Some(b)
  {
    hide EtherAddr.ParseMac, EtherAddr.PrintSix, EtherAddr.PrintThree, Lower;
    EtherAddr.PrintedMacParses(b);
    if SameButCase(EtherAddr.PrintSix(b), t) {
      ParseMacCase(EtherAddr.PrintSix(b), t);
    } else {
      ParseMacCase(EtherAddr.PrintThree(b), t);
    }
  }

  // ----- the order of bytes -----

  /** Non-empty, with every character in the first `n` of either row. */
  predicate Numeral(p: string, n: nat)
    requires n <= 16
  {
    p != [] && forall i :: 0 <= i < |p| ==> p[i] in LOWER_DIGITS[..n] || p[i] in UPPER_DIGITS[..n]
  }

  lemma Numerals(p: string)
    ensures Numeral(p, 16) <==> p != [] && AllHex(p)
    ensures Numeral(p, 10) <==> p != [] && AllDigits(p)
  {
    hide IsHex, IsDigit;
    assert LOWER_DIGITS[..16] == LOWER_DIGITS && UPPER_DIGITS[..16] == UPPER_DIGITS && LOWER_DIGITS[..10] == UPPER_DIGITS[..10];
    forall i | 0 <= i < |p|
      ensures IsHex(p[i]) <==> p[i] in LOWER_DIGITS || p[i] in UPPER_DIGITS
      ensures IsDigit(p[i]) <==> p[i] in LOWER_DIGITS[..10]
    {
      DigitRows(p[i]);
    }
  }

  /** The texts of dotted quads, by their fields: four decimal numerals of value at most 255, of any length;
      the first is the first byte. */
  lemma QuadTexts(s: string)
    ensures var ps := Split(s, '.');
            && (Parse4Texts(ps) <==> Inet4.Parse4(s).Some?)
            && (Parse4Texts(ps) ==> forall i :: 0 <= i < 4 ==> Inet4.Parse4(s).value[i] == Dec(ps[i]))
  {
    hide Split, Dec, Numeral;
    var ps := Split(s, '.');
    forall i | 0 <= i < |ps| ensures Numeral(ps[i], 10) <==> ps[i] != [] && AllDigits(ps[i]) {
      Numerals(ps[i]);
    }
  }

  predicate Parse4Texts(ps: seq<string>) {
    |ps| == 4 && forall i :: 0 <= i < 4 ==> Numeral(ps[i], 10) && AllDigits(ps[i]) && Dec(ps[i]) <= 255
  }

  lemma {:induction false} GroupOrder(gs: seq<string>, i: nat)
    requires Inet6.ValidGroups(gs) && i < |gs|
    ensures Spells(Inet6.Octets(gs), 2 * i, Hex(gs[i]))
  {
    hide Hex;
    var n := |gs| - 1;
    FourDigitsFit(gs[n]);
    if i < n {
      GroupOrder(gs[..n], i);
    }
  }

  /** An IPv6 address begins with its groups, high byte first; what follows "::" stands at the end, an IPv4
      tail in the last four bytes, and the rest is zero. */
  lemma AddressOrder(a: Inet6.Addr)
    requires a.Valid()
    ensures var v := Inet6.Value(a); var end := if a.tail.Some? then 12 else 16; var start := end - 2 * |a.after|;
            && 2 * |a.before| <= start && (!a.gap ==> 2 * |a.before| == start)
            && (forall i :: 0 <= i < |a.before| ==> Spells(v, 2 * i, Hex(a.before[i])))
            && (forall i :: 0 <= i < |a.after| ==> Spells(v, start + 2 * i, Hex(a.after[i])))
            && (forall k :: 2 * |a.before| <= k < start ==> v[k] == 0)
            && (a.tail.Some? ==> Inet4.Parse4(a.tail.value) == Some(v[12..]))
  {
    hide Hex, Inet6.Octets, Inet4.Parse4;
    var v := Inet6.Value(a);
    var end := if a.tail.Some? then 12 else 16;
    var start := end - 2 * |a.after|;
    var x, y, t := Inet6.Octets(a.before), Inet6.Octets(a.after), Inet6.TailOctets(a.tail);
    assert v == x + Inet6.Zeros(start - |x|) + y + t;
    forall i | 0 <= i < |a.before| ensures Spells(v, 2 * i, Hex(a.before[i])) {
      GroupOrder(a.before, i);
      assert v[2 * i] == x[2 * i] && v[2 * i + 1] == x[2 * i + 1];
    }
    forall i | 0 <= i < |a.after| ensures Spells(v, start + 2 * i, Hex(a.after[i])) {
      GroupOrder(a.after, i);
      assert v[start + 2 * i] == y[2 * i] && v[start + 2 * i + 1] == y[2 * i + 1];
    }
  }

  lemma {:induction false} FieldOrder(fs: seq<string>, i: nat)
    requires i < |fs|
    ensures EtherAddr.Fields(fs, 0xff) ==> EtherAddr.ByteFields(fs)[i] == Hex(fs[i])
    ensures EtherAddr.Fields(fs, 0xffff) ==> Spells(EtherAddr.PairFields(fs), 2 * i, Hex(fs[i]))
  {
    hide Hex;
    var n := |fs| - 1;
    if i < n {
      FieldOrder(fs[..n], i);
    }
  }

  predicate MacTexts(fs: seq<string>, most: nat) {
    forall i :: 0 <= i < |fs| ==> Numeral(fs[i], 16) && AllHex(fs[i]) && Hex(fs[i]) <= most
  }

  lemma MacFields(fs: seq<string>, most: nat)
    ensures MacTexts(fs, most) <==> EtherAddr.Fields(fs, most)
  {
    hide Hex, Numeral;
    forall i | 0 <= i < |fs| ensures Numeral(fs[i], 16) <==> fs[i] != [] && AllHex(fs[i]) {
      Numerals(fs[i]);
    }
  }

  /** The texts of MAC addresses, by their fields: six hexadecimal numerals of value at most 255, each a
      byte, or three of at most 65535, each two bytes, high byte first; of any length either way. */
  lemma MacTextsParse(s: string)
    ensures var fs, r := Split(s, ':'), EtherAddr.ParseMac(s);
            && (r.Some? <==> (|fs| == 6 && MacTexts(fs, 255)) || (|fs| == 3 && MacTexts(fs, 65535)))
            && (|fs| == 6 && r.Some? ==> forall i :: 0 <= i < 6 ==> r.value[i] == Hex(fs[i]))
            && (|fs| == 3 && r.Some? ==> forall i :: 0 <= i < 3 ==> Spells(r.value, 2 * i, Hex(fs[i])))
  {
    hide Split, Hex, EtherAddr.ByteFields, EtherAddr.PairFields, MacTexts, Spells;
    var fs := Split(s, ':');
    MacFields(fs, 255);
    MacFields(fs, 65535);
    forall i | 0 <= i < |fs|
      ensures EtherAddr.Fields(fs, 0xff) ==> EtherAddr.ByteFields(fs)[i] == Hex(fs[i])
      ensures EtherAddr.Fields(fs, 0xffff) ==> Spells(EtherAddr.PairFields(fs), 2 * i, Hex(fs[i]))
    {
      FieldOrder(fs, i);
    }
  }

  /** Which addresses `inet_pton6` can write: groups of one to four hexadecimal digits; at most one "::",
      which stands for one group at least; at most one dotted quad, at the end, whose first number is no
      longer than a group. */
  lemma AddressTexts(a: Inet6.Addr)
    ensures a.Valid() <==>
              && (forall i :: 0 <= i < |a.before| ==> |a.before[i]| <= 4 && Numeral(a.before[i], 16))
              && (forall i :: 0 <= i < |a.after| ==> |a.after[i]| <= 4 && Numeral(a.after[i], 16))
              && (a.tail.Some? ==> Inet4.Parse4(a.tail.value).Some? && |Split(a.tail.value, '.')[0]| <= 4)
              && var written := |a.before| + |a.after| + if a.tail.Some? then 2 else 0;
                 if a.gap then written < 8 else written == 8 && a.after == []
  {
    hide Numeral, Inet4.Parse4, Split;
    forall i | 0 <= i < |a.before| ensures Numeral(a.before[i], 16) <==> a.before[i] != [] && AllHex(a.before[i]) {
      Numerals(a.before[i]);
    }
    forall i | 0 <= i < |a.after| ensures Numeral(a.after[i], 16) <==> a.after[i] != [] && AllHex(a.after[i]) {
      Numerals(a.after[i]);
    }
  }
}
