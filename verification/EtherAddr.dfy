/** `my_ether_aton` and `parse_mac_addr` (src/cli/parser.c:516-557, 583-594), on texts made of
    hexadecimal digits and colons. */
module EtherAddr {
  import opened SeqArith
  import opened TcpTypes
  import opened Text

  const RTE_ETHER_ADDR_LEN: nat := 6
  const ULONG_MAX: nat := 0xffff_ffff_ffff_ffff

  /** Where `strtoul` in base 16 reads digits only: no blanks, signs or 0x. */
  predicate Plain(s: string) { forall i :: 0 <= i < |s| ==> IsHex(s[i]) || s[i] == ':' }

  // ----- the grammar -----

  predicate Fields(fs: seq<string>, most: nat) {
    forall i :: 0 <= i < |fs| ==> fs[i] != [] && AllHex(fs[i]) && Hex(fs[i]) <= most
  }

  function ByteFields(fs: seq<string>): (b: Bytes)
    requires Fields(fs, 0xff)
    ensures |b| == |fs|
  {
    if fs == [] then [] else ByteFields(fs[..|fs| - 1]) + [Hex(fs[|fs| - 1])]
  }

  function PairFields(fs: seq<string>): (b: Bytes)
    requires Fields(fs, 0xffff)
    ensures |b| == 2 * |fs|
  {
    if fs == [] then []
    else
      var v := Hex(fs[|fs| - 1]);
      PairFields(fs[..|fs| - 1]) + [v / 256, v % 256]
  }

  /** Six fields of at most 0xff, or three of at most 0xffff; leading zeros are allowed. */
  function ParseMac(s: string): (r: Option<Bytes>)
    ensures r.Some? ==> |r.value| == RTE_ETHER_ADDR_LEN
  {
    var fs := Split(s, ':');
    if |fs| == 6 && Fields(fs, 0xff) then Some(ByteFields(fs))
    else if |fs| == 3 && Fields(fs, 0xffff) then Some(PairFields(fs))
    else None
  }

  /** The parser accepts exactly the colon-joined texts of the two forms. */
  lemma ParseMacGrammar(s: string)
    ensures ParseMac(s).Some? <==>
            exists fs :: ((|fs| == 6 && Fields(fs, 0xff)) || (|fs| == 3 && Fields(fs, 0xffff))) && s == Join(fs, ':')
    ensures forall fs :: |fs| == 6 && Fields(fs, 0xff) && s == Join(fs, ':') ==> ParseMac(s) == Some(ByteFields(fs))
    ensures forall fs :: |fs| == 3 && Fields(fs, 0xffff) && s == Join(fs, ':') ==> ParseMac(s) == Some(PairFields(fs))
  {
    JoinSplit(s, ':');
    forall fs | (|fs| == 6 && Fields(fs, 0xff)) || (|fs| == 3 && Fields(fs, 0xffff)) ensures Split(Join(fs, ':'), ':') == fs {
      forall f | f in fs ensures ':' !in f {
        assert AllHex(f);
      }
      SplitJoin(fs, ':');
    }
  }

  // ----- printing -----

  function TwoDigits(v: u8): string { [DIGITS[v / 16], DIGITS[v % 16]] }

  lemma HexOfNone()
    ensures Hex([]) == 0
  {
  }

  /** Two more digits. */
  lemma TwoMoreDigits(s: string, v: u8)
    requires AllHex(s)
    ensures AllHex(s + TwoDigits(v)) && Hex(s + TwoDigits(v)) == Hex(s) * 256 + v
  {
    hide Hex, DigitValue, IsHex;
    DigitOf(v / 16);
    DigitOf(v % 16);
    HexSnoc(s, DIGITS[v / 16]);
    HexSnoc(s + [DIGITS[v / 16]], DIGITS[v % 16]);
    assert s + [DIGITS[v / 16]] + [DIGITS[v % 16]] == s + TwoDigits(v);
  }

  lemma TwoDigitsValue(v: u8)
    ensures AllHex(TwoDigits(v)) && Hex(TwoDigits(v)) == v
  {
    hide Hex, TwoDigits;
    HexOfNone();
    TwoMoreDigits([], v);
    assert [] + TwoDigits(v) == TwoDigits(v);
  }

  lemma FourDigitsValue(hi: u8, lo: u8)
    ensures var f := TwoDigits(hi) + TwoDigits(lo); AllHex(f) && Hex(f) == hi * 256 + lo
  {
    hide Hex, TwoDigits;
    TwoDigitsValue(hi);
    TwoMoreDigits(TwoDigits(hi), lo);
  }

  /** XX:XX:XX:XX:XX:XX */
  function PrintSix(b: Bytes): string
    requires |b| == RTE_ETHER_ADDR_LEN
  {
    Join([TwoDigits(b[0]), TwoDigits(b[1]), TwoDigits(b[2]), TwoDigits(b[3]), TwoDigits(b[4]), TwoDigits(b[5])], ':')
  }

  /** XXXX:XXXX:XXXX */
  function PrintThree(b: Bytes): string
    requires |b| == RTE_ETHER_ADDR_LEN
  {
    Join([TwoDigits(b[0]) + TwoDigits(b[1]), TwoDigits(b[2]) + TwoDigits(b[3]), TwoDigits(b[4]) + TwoDigits(b[5])], ':')
  }

  /** Both texts of any address give back its six bytes. */
  lemma PrintedMacParses(b: Bytes)
    requires |b| == RTE_ETHER_ADDR_LEN
    ensures ParseMac(PrintSix(b)) == Some(b) && ParseMac(PrintThree(b)) == Some(b)
  {
    SixParses(b);
    ThreeParses(b);
  }

  lemma SixParses(b: Bytes)
    requires |b| == RTE_ETHER_ADDR_LEN
    ensures ParseMac(PrintSix(b)) == Some(b)
  {
    hide Hex, TwoDigits, Join, ParseMac;
    var fs := [TwoDigits(b[0]), TwoDigits(b[1]), TwoDigits(b[2]), TwoDigits(b[3]), TwoDigits(b[4]), TwoDigits(b[5])];
    NotEmpty();
    forall i | 0 <= i < 6 ensures AllHex(fs[i]) && Hex(fs[i]) == b[i] && fs[i] != [] {
      TwoDigitsValue(b[i]);
    }
    ByteFieldsAre(fs, b);
    ParseMacGrammar(PrintSix(b));
  }

  lemma NotEmpty()
    ensures forall v: u8 :: |TwoDigits(v)| == 2
  {
  }

  lemma {:induction false} ByteFieldsAre(fs: seq<string>, b: Bytes)
    requires |fs| == |b| && forall i :: 0 <= i < |fs| ==> fs[i] != [] && AllHex(fs[i]) && Hex(fs[i]) == b[i]
    ensures Fields(fs, 0xff) && ByteFields(fs) == b
  {
    if fs != [] {
      var n := |fs| - 1;
      ByteFieldsAre(fs[..n], b[..n]);
      assert b[..n] + [b[n]] == b;
    }
  }

  lemma ThreeParses(b: Bytes)
    requires |b| == RTE_ETHER_ADDR_LEN
    ensures ParseMac(PrintThree(b)) == Some(b)
  {
    hide Hex, TwoDigits, Join, ParseMac;
    var fs := [TwoDigits(b[0]) + TwoDigits(b[1]), TwoDigits(b[2]) + TwoDigits(b[3]), TwoDigits(b[4]) + TwoDigits(b[5])];
    NotEmpty();
    FourDigitsValue(b[0], b[1]);
    FourDigitsValue(b[2], b[3]);
    FourDigitsValue(b[4], b[5]);
    assert Fields(fs, 0xffff);
    assert fs[..2] == [fs[0], fs[1]] && fs[..2][..1] == [fs[0]] && fs[..2][..1][..0] == [];
    assert PairFields(fs[..2][..1]) == [b[0], b[1]];
    assert PairFields(fs[..2]) == [b[0], b[1], b[2], b[3]];
    assert PairFields(fs) == b;
    ParseMacGrammar(PrintThree(b));
  }

  // ----- the code -----

  /** `strtoul(a, &end, 16)` on a plain text: the longest run of digits; out of range sets errno. */
  method StrtoulHex(s: string, a: nat) returns (value: nat, end: nat, erange: bool)
    requires Plain(s) && a <= |s|
    ensures a <= end <= |s| && AllHex(s[a..end]) && (end < |s| ==> s[end] == ':')
    ensures erange <==> Hex(s[a..end]) > 0xffff_ffff_ffff_ffff
    ensures value == if erange then 0xffff_ffff_ffff_ffff else Hex(s[a..end])
  {
    end, value := a, 0;
    assert s[a..a] == [];
    while end < |s| && IsHex(s[end])
      invariant a <= end <= |s| && AllHex(s[a..end]) && value == Hex(s[a..end])
    {
      HexSnoc(s[a..end], s[end]);
      assert s[a..end + 1] == s[a..end] + [s[end]];
      value := value * 16 + DigitValue(s[end]);
      end := end + 1;
    }
    erange := value > ULONG_MAX;
    if erange {
      value := ULONG_MAX;
    }
  }

  /** The fields in front of `end`, where a field ends. */
  predicate FieldsUpTo(s: string, end: nat, fs: seq<string>) {
    end <= |s| && (end < |s| ==> s[end] == ':') && fs == Split(s[..end], ':')
  }

  lemma FirstFieldRead(s: string, end: nat)
    requires Plain(s) && end <= |s| && AllHex(s[..end]) && (end < |s| ==> s[end] == ':')
    ensures FieldsUpTo(s, end, [s[..end]])
  {
    SplitPlain(s[..end], ':');
  }

  lemma NextFieldRead(s: string, before: nat, end: nat, fs: seq<string>)
    requires FieldsUpTo(s, before, fs) && before < end <= |s|
    requires AllHex(s[before + 1..end]) && (end < |s| ==> s[end] == ':')
    ensures FieldsUpTo(s, end, fs + [s[before + 1..end]])
  {
    SplitAppend(s[..before], s[before + 1..end], ':');
    assert s[..before] + [':'] + s[before + 1..end] == s[..end];
  }

  /** Fields read are fields of the whole text, and a colon behind them means there are more. */
  lemma FieldsStay(s: string, end: nat, fs: seq<string>)
    requires FieldsUpTo(s, end, fs)
    ensures |fs| <= |Split(s, ':')| && Split(s, ':')[..|fs|] == fs
    ensures end == |s| ==> Split(s, ':') == fs
    ensures end < |s| ==> |fs| < |Split(s, ':')|
  {
    hide Split;
    SplitExtends(s[..end], s[end..], ':');
    assert s[..end] + s[end..] == s;
    var qs := Split(s, ':');
    if end < |s| {
      assert qs[..|fs|] == qs[..|fs| - 1] + [qs[|fs| - 1]] == fs[..|fs| - 1] + [Last(fs)] == fs;
    } else {
      assert s[..end] == s;
    }
  }

  lemma BadField(s: string, end: nat, fs: seq<string>)
    requires FieldsUpTo(s, end, fs) && (Last(fs) == [] || (AllHex(Last(fs)) && Hex(Last(fs)) > ULONG_MAX))
    ensures ParseMac(s) == None
  {
    FieldsStay(s, end, fs);
    assert Split(s, ':')[..|fs|][|fs| - 1] == Split(s, ':')[|fs| - 1];
  }

  method MyEtherAton(a: string) returns (r: Option<Bytes>)
    requires Plain(a)
    ensures r == ParseMac(a)
  {
    hide Split, Hex, ParseMac;
    var o := new nat[RTE_ETHER_ADDR_LEN];
    var i, from, end, more := 0, 0, 0, true;
    ghost var fs: seq<string> := [];
    while more
      invariant 0 <= i <= 6 && |fs| == i && Fields(fs, ULONG_MAX)
      invariant forall k :: 0 <= k < i ==> o[k] == Hex(fs[k])
      invariant i > 0 ==> FieldsUpTo(a, end, fs)
      invariant i > 0 ==> (more <==> i != 6 && end < |a|)
      invariant if i == 0 then from == 0 && more else from == end + 1
      decreases 6 - i, more
    {
      var value, stop, erange := StrtoulHex(a, from);
      ghost var next := fs + [a[from..stop]];
      if i == 0 {
        assert a[0..stop] == a[..stop];
        FirstFieldRead(a, stop);
        assert next == [a[..stop]];
      } else {
        NextFieldRead(a, end, stop, fs);
      }
      if erange || stop == from {
        BadField(a, stop, next);
        return None;
      }
      o[i] := value;
      fs, end := next, stop;
      from := end + 1;
      i := i + 1;
      more := i != 6 && end < |a|;
    }
    FieldsStay(a, end, fs);
    if end < |a| {
      MoreThanSix(a);
      return None;
    }
    r := Assemble(a, o, i, fs);
  }

  lemma MoreThanSix(s: string)
    requires |Split(s, ':')| > 6
    ensures ParseMac(s) == None
  {
  }

  /** The two accepted forms, filled in from the last field to the first. */
  method Assemble(a: string, o: array<nat>, count: nat, ghost fs: seq<string>) returns (r: Option<Bytes>)
    requires o.Length == 6 && 1 <= count <= 6 && fs == Split(a, ':') && |fs| == count && Fields(fs, ULONG_MAX)
    requires forall k :: 0 <= k < count ==> o[k] == Hex(fs[k])
    ensures r == ParseMac(a)
  {
    hide Split, Hex;
    var bytes := new u8[RTE_ETHER_ADDR_LEN];
    var i := count;
    if count == RTE_ETHER_ADDR_LEN {
      while i != 0
        invariant 0 <= i <= 6
        invariant forall k :: i <= k < 6 ==> Hex(fs[k]) <= 0xff && bytes[k] == Hex(fs[k])
      {
        i := i - 1;
        if o[i] > 0xff {
          return None;
        }
        bytes[i] := o[i];
      }
      ByteFieldsAre(fs, bytes[..]);
      return Some(bytes[..]);
    } else if count == RTE_ETHER_ADDR_LEN / 2 {
      while i != 0
        invariant 0 <= i <= 3
        invariant forall k :: i <= k < 3 ==> Hex(fs[k]) <= 0xffff
        invariant forall k :: i <= k < 3 ==> bytes[2 * k] == Hex(fs[k]) / 256 && bytes[2 * k + 1] == Hex(fs[k]) % 256
      {
        i := i - 1;
        if o[i] > 0xffff {
          return None;
        }
        bytes[i * 2] := o[i] / 256;
        bytes[i * 2 + 1] := o[i] % 256;
      }
      PairFieldsAre(fs, bytes[..]);
      return Some(bytes[..]);
    } else {
      return None;
    }
  }

  lemma {:induction false} PairFieldsAre(fs: seq<string>, b: Bytes)
    requires |b| == 2 * |fs| && Fields(fs, 0xffff)
    requires forall k :: 0 <= k < |fs| ==> b[2 * k] == Hex(fs[k]) / 256 && b[2 * k + 1] == Hex(fs[k]) % 256
    ensures PairFields(fs) == b
  {
    if fs != [] {
      var n := |fs| - 1;
      PairFieldsAre(fs[..n], b[..2 * n]);
      assert b[..2 * n] + [b[2 * n], b[2 * n + 1]] == b;
    }
  }

  /** `parse_mac_addr`: six bytes on success, `addr` untouched on failure. */
  method ParseMacAddr(token: string, addr: array<u8>) returns (status: int)
    requires Plain(token) && addr.Length == RTE_ETHER_ADDR_LEN
    modifies addr
    ensures status == 0 <==> ParseMac(token).Some?
    ensures status == 0 ==> addr[..] == ParseMac(token).value
    ensures status != 0 ==> status == -1 && addr[..] == old(addr[..])
  {
    var tmp := MyEtherAton(token);
    if tmp == None {
      return -1;
    }
    forall i | 0 <= i < RTE_ETHER_ADDR_LEN {
      addr[i] := tmp.value[i];
    }
    return 0;
  }
}
