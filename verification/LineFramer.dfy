/** The console's incremental line splitter: the loop of `data_event_handle`
    (src/config/conn.c:207-271), whose buffer survives from read to read. */
module LineFramer {

  /** What the client sees: a line given to the message handler, the handler's reply, the notice for
      an overlong line, and the prompt that ends every read. */
  datatype Out = Deliver(msg: string) | Reply(text: string) | TooLong | Prompt

  /** The maximal length of a message and the message handler, which leaves its reply in `msg_out`. */
  datatype Config = Config(most: nat, handler: string -> string)

  datatype Fed = Fed(outs: seq<Out>, buf: string)

  function Answer(c: Config, msg: string): seq<Out> {
    [Deliver(msg)] + if c.handler(msg) == "" then [] else [Reply(c.handler(msg))]
  }

  /** One byte: a newline delivers the buffer, any other byte is appended while there is room, and a
      byte for which there is none is dropped together with the buffer. */
  function Byte(c: Config, buf: string, b: char): Fed {
    if b == '\n' then Fed(Answer(c, buf), "")
    else if |buf| < c.most then Fed([], buf + [b])
    else Fed([TooLong], "")
  }

  function Feed(c: Config, buf: string, s: string): Fed {
    if s == [] then Fed([], buf)
    else
      var before := Feed(c, buf, s[..|s| - 1]);
      var last := Byte(c, before.buf, s[|s| - 1]);
      Fed(before.outs + last.outs, last.buf)
  }

  // ----- cutting the stream into reads -----

  lemma FeedSnoc(c: Config, buf: string, s: string, b: char)
    ensures Feed(c, buf, s + [b]) ==
            Fed(Feed(c, buf, s).outs + Byte(c, Feed(c, buf, s).buf, b).outs, Byte(c, Feed(c, buf, s).buf, b).buf)
  {
    assert (s + [b])[..|s|] == s;
  }

  lemma {:induction false} FeedConcat(c: Config, buf: string, s: string, t: string)
    ensures var f, g := Feed(c, buf, s), Feed(c, Feed(c, buf, s).buf, t);
            Feed(c, buf, s + t) == Fed(f.outs + g.outs, g.buf)
    decreases |t|
  {
    hide Feed, Byte;
    if t == [] {
      assert s + t == s;
      FeedNothing(c, Feed(c, buf, s).buf);
      assert Feed(c, buf, s).outs + [] == Feed(c, buf, s).outs;
    } else {
      var n := |t| - 1;
      FeedConcat(c, buf, s, t[..n]);
      assert s + t == s + t[..n] + [t[n]] && t[..n] + [t[n]] == t;
      FeedSnoc(c, buf, s + t[..n], t[n]);
      FeedSnoc(c, Feed(c, buf, s).buf, t[..n], t[n]);
    }
  }

  lemma FeedNothing(c: Config, buf: string)
    ensures Feed(c, buf, []) == Fed([], buf)
  {
  }

  /** A whole session: one non-empty read after another, each ended by a prompt. */
  function Session(c: Config, buf: string, chunks: seq<string>): Fed {
    if chunks == [] then Fed([], buf)
    else
      var before := Session(c, buf, chunks[..|chunks| - 1]);
      var last := Feed(c, before.buf, chunks[|chunks| - 1]);
      Fed(before.outs + last.outs + [Prompt], last.buf)
  }

  function Stream(chunks: seq<string>): string {
    if chunks == [] then "" else Stream(chunks[..|chunks| - 1]) + chunks[|chunks| - 1]
  }

  function NoPrompts(outs: seq<Out>): seq<Out> {
    if outs == [] then []
    else NoPrompts(outs[..|outs| - 1]) + if outs[|outs| - 1] == Prompt then [] else [outs[|outs| - 1]]
  }

  lemma {:induction false} NoPromptsConcat(a: seq<Out>, b: seq<Out>)
    ensures NoPrompts(a + b) == NoPrompts(a) + NoPrompts(b)
    decreases |b|
  {
    if b == [] {
      assert a + b == a;
    } else {
      var n := |b| - 1;
      NoPromptsConcat(a, b[..n]);
      assert (a + b)[..|a + b| - 1] == a + b[..n];
    }
  }

  lemma {:induction false} FeedHasNoPrompts(c: Config, buf: string, s: string)
    ensures NoPrompts(Feed(c, buf, s).outs) == Feed(c, buf, s).outs
  {
    if s != [] {
      var before := Feed(c, buf, s[..|s| - 1]);
      FeedHasNoPrompts(c, buf, s[..|s| - 1]);
      ByteHasNoPrompts(c, before.buf, s[|s| - 1]);
      NoPromptsConcat(before.outs, Byte(c, before.buf, s[|s| - 1]).outs);
    }
  }

  lemma ByteHasNoPrompts(c: Config, buf: string, b: char)
    ensures NoPrompts(Byte(c, buf, b).outs) == Byte(c, buf, b).outs
  {
    var outs := Byte(c, buf, b).outs;
    if |outs| == 2 {
      assert outs[..1] == [outs[0]] && outs[..1][..0] == [];
    }
  }

  /** Apart from the prompts, a session is the feeding of its whole stream. */
  lemma {:induction false} SessionIsFeed(c: Config, buf: string, chunks: seq<string>)
    ensures NoPrompts(Session(c, buf, chunks).outs) == Feed(c, buf, Stream(chunks)).outs
    ensures Session(c, buf, chunks).buf == Feed(c, buf, Stream(chunks)).buf
  {
    hide Feed;
    if chunks == [] {
      FeedNothing(c, buf);
    } else {
      var n := |chunks| - 1;
      SessionIsFeed(c, buf, chunks[..n]);
      var before := Session(c, buf, chunks[..n]);
      var last := Feed(c, before.buf, chunks[n]);
      FeedConcat(c, buf, Stream(chunks[..n]), chunks[n]);
      FeedHasNoPrompts(c, before.buf, chunks[n]);
      NoPromptsConcat(before.outs + last.outs, [Prompt]);
      NoPromptsConcat(before.outs, last.outs);
      assert NoPrompts([Prompt]) == [];
    }
  }

  /** Any two ways of cutting the same stream into reads give the same messages, replies and notices
      in the same order, and leave the same buffer. */
  lemma ChunkingIrrelevant(c: Config, buf: string, chunks: seq<string>, others: seq<string>)
    requires Stream(chunks) == Stream(others)
    ensures NoPrompts(Session(c, buf, chunks).outs) == NoPrompts(Session(c, buf, others).outs)
    ensures Session(c, buf, chunks).buf == Session(c, buf, others).buf
  {
    SessionIsFeed(c, buf, chunks);
    SessionIsFeed(c, buf, others);
  }

  // ----- where every byte goes -----

  /** A stretch of the stream: a line with its newline, or a full buffer and the byte too many. */
  datatype Piece = Line(msg: string) | Dropped(bytes: string)

  predicate OneLine(s: string) { '\n' !in s }

  predicate ValidPiece(c: Config, p: Piece) {
    match p
    case Line(msg) => OneLine(msg) && |msg| <= c.most
    case Dropped(bytes) => OneLine(bytes) && |bytes| == c.most + 1
  }

  predicate ValidPieces(c: Config, ps: seq<Piece>) { forall i :: 0 <= i < |ps| ==> ValidPiece(c, ps[i]) }

  function Text(p: Piece): string {
    match p
    case Line(msg) => msg + "\n"
    case Dropped(bytes) => bytes
  }

  function Outs(c: Config, p: Piece): seq<Out> {
    match p
    case Line(msg) => Answer(c, msg)
    case Dropped(_) => [TooLong]
  }

  function AllText(ps: seq<Piece>): string {
    if ps == [] then "" else AllText(ps[..|ps| - 1]) + Text(ps[|ps| - 1])
  }

  function AllOuts(c: Config, ps: seq<Piece>): seq<Out> {
    if ps == [] then [] else AllOuts(c, ps[..|ps| - 1]) + Outs(c, ps[|ps| - 1])
  }

  /** Bytes without a newline pile up while they fit. */
  lemma {:induction false} PilesUp(c: Config, buf: string, s: string)
    requires OneLine(s) && |buf| + |s| <= c.most
    ensures Feed(c, buf, s) == Fed([], buf + s)
  {
    if s == [] {
      assert buf + s == buf;
    } else {
      PilesUp(c, buf, s[..|s| - 1]);
      assert buf + s[..|s| - 1] + [s[|s| - 1]] == buf + s;
    }
  }

  lemma PieceFed(c: Config, p: Piece)
    requires ValidPiece(c, p)
    ensures Feed(c, "", Text(p)) == Fed(Outs(c, p), "")
  {
    hide Feed;
    match p
    case Line(msg) =>
      PilesUp(c, "", msg);
      FeedSnoc(c, "", msg, '\n');
      assert "" + msg == msg && msg + ['\n'] == Text(p) && [] + Answer(c, msg) == Answer(c, msg);
    case Dropped(bytes) =>
      var n := c.most;
      PilesUp(c, "", bytes[..n]);
      FeedSnoc(c, "", bytes[..n], bytes[n]);
      assert bytes[n] in bytes;
      assert "" + bytes[..n] == bytes[..n] && bytes[..n] + [bytes[n]] == bytes && [] + [TooLong] == [TooLong];
  }

  /** Feeding pieces and a rest does exactly what the pieces say and keeps the rest. */
  lemma {:induction false} PiecesFed(c: Config, ps: seq<Piece>, rest: string)
    requires ValidPieces(c, ps) && OneLine(rest) && |rest| <= c.most
    ensures Feed(c, "", AllText(ps) + rest) == Fed(AllOuts(c, ps), rest)
  {
    hide Feed, Outs, Text;
    WholePieces(c, ps);
    FeedConcat(c, "", AllText(ps), rest);
    PilesUp(c, "", rest);
    assert "" + rest == rest && AllOuts(c, ps) + [] == AllOuts(c, ps);
  }

  lemma {:induction false} WholePieces(c: Config, ps: seq<Piece>)
    requires ValidPieces(c, ps)
    ensures Feed(c, "", AllText(ps)) == Fed(AllOuts(c, ps), "")
  {
    hide Feed, Outs, Text;
    if ps == [] {
      FeedNothing(c, "");
    } else {
      var n := |ps| - 1;
      WholePieces(c, ps[..n]);
      PieceFed(c, ps[n]);
      FeedConcat(c, "", AllText(ps[..n]), Text(ps[n]));
    }
  }

  lemma PiecesSnoc(c: Config, ps: seq<Piece>, p: Piece)
    ensures AllText(ps + [p]) == AllText(ps) + Text(p) && AllOuts(c, ps + [p]) == AllOuts(c, ps) + Outs(c, p)
  {
    assert (ps + [p])[..|ps|] == ps;
  }

  /** Every stream is pieces and a rest: each byte is delivered, or a delimiter, or dropped in a full
      buffer, or still pending, and the outputs are those of the pieces. */
  lemma {:induction false} EveryByteAccounted(c: Config, s: string) returns (ps: seq<Piece>, rest: string)
    ensures ValidPieces(c, ps) && OneLine(rest) && |rest| <= c.most
    ensures s == AllText(ps) + rest
    ensures Feed(c, "", s) == Fed(AllOuts(c, ps), rest)
  {
    hide Feed, AllText, AllOuts;
    if s == [] {
      ps, rest := [], "";
      NoPieces(c);
    } else {
      var n := |s| - 1;
      var before, pending := EveryByteAccounted(c, s[..n]);
      var b := s[n];
      assert s == s[..n] + [b] == AllText(before) + pending + [b];
      if b != '\n' && |pending| < c.most {
        ps, rest := before, pending + [b];
        assert AllText(before) + pending + [b] == AllText(ps) + rest;
      } else {
        var p := if b == '\n' then Line(pending) else Dropped(pending + [b]);
        ps, rest := before + [p], "";
        PiecesSnoc(c, before, p);
        assert Text(p) == pending + [b];
        assert AllText(before) + pending + [b] == AllText(before) + (pending + [b]) == AllText(ps) + rest;
      }
    }
    PiecesFed(c, ps, rest);
  }

  lemma NoPieces(c: Config)
    ensures AllText([]) == "" && AllOuts(c, []) == []
  {
  }

  lemma {:induction false} FirstPiece(ps: seq<Piece>)
    requires ps != []
    ensures AllText(ps) == Text(ps[0]) + AllText(ps[1..])
  {
    hide Text;
    var n := |ps| - 1;
    if n == 0 {
      assert ps[..0] == [] && ps[1..] == [] && AllText(ps[..0]) == "" && AllText(ps[1..]) == "";
      assert AllText(ps) == "" + Text(ps[0]) == Text(ps[0]) == Text(ps[0]) + "";
    } else {
      FirstPiece(ps[..n]);
      assert ps[..n][1..] == ps[1..][..n - 1] && ps[1..][n - 1] == ps[n];
    }
  }

  /** A stream can begin with one piece only. */
  lemma PieceUnique(c: Config, p: Piece, x: string, r: Piece, y: string)
    requires ValidPiece(c, p) && ValidPiece(c, r) && Text(p) + x == Text(r) + y
    ensures p == r && x == y
  {
    var t, u := Text(p), Text(r);
    assert t == (t + x)[..|t|] && u == (u + y)[..|u|] && x == (t + x)[|t|..] && y == (u + y)[|u|..];
    assert forall k :: 0 <= k < |t| && k < |u| ==> t[k] == u[k];
    if p.Line? {
      assert t[|p.msg|] == '\n' && t[..|p.msg|] == p.msg;
    }
    if r.Line? {
      assert u[|r.msg|] == '\n' && u[..|r.msg|] == r.msg;
    }
  }

  /** A rest is too short, or lacks the newline, to begin with a piece. */
  lemma RestIsNoPiece(c: Config, rest: string, p: Piece, y: string)
    requires OneLine(rest) && |rest| <= c.most && ValidPiece(c, p)
    ensures rest != Text(p) + y
  {
    var whole := Text(p) + y;
    if p.Line? {
      assert whole[|p.msg|] == '\n';
    }
  }

  /** Every stream has one account only: each of its bytes is delivered, a delimiter, dropped or pending,
      and in one way. */
  lemma {:induction false} AccountUnique(c: Config, ps: seq<Piece>, rest: string, qs: seq<Piece>, other: string)
    requires ValidPieces(c, ps) && OneLine(rest) && |rest| <= c.most
    requires ValidPieces(c, qs) && OneLine(other) && |other| <= c.most
    requires AllText(ps) + rest == AllText(qs) + other
    ensures ps == qs && rest == other
  {
    hide Text, AllText, OneLine, ValidPiece;
    NoPieces(c);
    assert "" + rest == rest && "" + other == other;
    if ps != [] && qs != [] {
      FirstPiece(ps);
      FirstPiece(qs);
      var x, y := AllText(ps[1..]) + rest, AllText(qs[1..]) + other;
      assert Text(ps[0]) + x == AllText(ps) + rest && Text(qs[0]) + y == AllText(qs) + other;
      PieceUnique(c, ps[0], x, qs[0], y);
      AccountUnique(c, ps[1..], rest, qs[1..], other);
      assert ps == [ps[0]] + ps[1..] && qs == [qs[0]] + qs[1..];
    } else if ps != [] {
      FirstPiece(ps);
      assert AllText(ps) + rest == Text(ps[0]) + (AllText(ps[1..]) + rest);
      RestIsNoPiece(c, other, ps[0], AllText(ps[1..]) + rest);
    } else if qs != [] {
      FirstPiece(qs);
      assert AllText(qs) + other == Text(qs[0]) + (AllText(qs[1..]) + other);
      RestIsNoPiece(c, rest, qs[0], AllText(qs[1..]) + other);
    }
  }

  // ----- overlong lines -----

  function Notices(k: nat): seq<Out> { seq(k, _ => TooLong) }

  /** What a newline-terminated line leaves behind when `m` bytes fill the buffer and spill it. */
  function LineOuts(c: Config, line: string, m: nat): seq<Out>
    requires m > 0
  {
    Notices(|line| / m) + Answer(c, line[|line| - |line| % m..])
  }

  /** A line of L bytes, from an empty buffer: L div (M + 1) notices, then its last L mod (M + 1)
      bytes are delivered as the message. */
  lemma {:induction false} LongLine(c: Config, line: string)
    requires OneLine(line)
    ensures Feed(c, "", line + "\n") == Fed(LineOuts(c, line, c.most + 1), "")
    decreases |line|
  {
    hide Feed, LineOuts;
    var m := c.most + 1;
    if |line| < m {
      PieceFed(c, Line(line));
      ShortLineOuts(c, line, m);
    } else {
      var head, tail := line[..m], line[m..];
      assert forall b <- head :: b in line;
      assert forall b <- tail :: b in line;
      PieceFed(c, Dropped(head));
      LongLine(c, tail);
      FeedConcat(c, "", head, tail + "\n");
      assert head + (tail + "\n") == line + "\n";
      LongLineOuts(c, line, m);
    }
  }

  lemma ShortLineOuts(c: Config, line: string, m: nat)
    requires |line| < m
    ensures LineOuts(c, line, m) == Answer(c, line)
  {
    ShortDivision(|line|, m);
    assert line[0..] == line && Notices(0) == [];
  }

  lemma LongLineOuts(c: Config, line: string, m: nat)
    requires 0 < m <= |line|
    ensures LineOuts(c, line, m) == [TooLong] + LineOuts(c, line[m..], m)
  {
    hide Answer;
    var tail := line[m..];
    OneLess(|line|, m);
    var k, r := |tail| / m, |line| % m;
    assert [TooLong] + Notices(k) == Notices(k + 1);
    assert tail[|tail| - r..] == line[|line| - r..];
  }

  lemma ShortDivision(n: nat, m: nat)
    requires n < m
    ensures n / m == 0 && n % m == n
  {
  }

  lemma MulMonotone(a: nat, b: nat, m: nat)
    requires a <= b
    ensures a * m <= b * m
  {
  }

  lemma DivisionUnique(n: nat, m: nat, q: nat, r: nat)
    requires r < m && n == q * m + r
    ensures n / m == q && n % m == r
  {
    var k := n / m;
    assert n == k * m + n % m;
    if k < q {
      MulMonotone(k + 1, q, m);
    } else if q < k {
      MulMonotone(q + 1, k, m);
    }
  }

  lemma OneLess(n: nat, m: nat)
    requires 0 < m <= n
    ensures n / m == (n - m) / m + 1 && n % m == (n - m) % m
  {
    var q, r := (n - m) / m, (n - m) % m;
    assert n - m == q * m + r;
    assert (q + 1) * m == q * m + m;
    DivisionUnique(n, m, q + 1, r);
  }

  // ----- replies and prompts -----

  /** What a line that fits brings about, from whatever the buffer holds of it already. */
  lemma LineAnswered(c: Config, buf: string, s: string)
    requires OneLine(s) && |buf| + |s| <= c.most
    ensures c.handler(buf + s) == "" ==> Feed(c, buf, s + "\n") == Fed([Deliver(buf + s)], "")
    ensures c.handler(buf + s) != "" ==> Feed(c, buf, s + "\n") == Fed([Deliver(buf + s), Reply(c.handler(buf + s))], "")
  {
    PilesUp(c, buf, s);
    FeedSnoc(c, buf, s, '\n');
    assert s + ['\n'] == s + "\n";
  }

  /** A delivered message is followed at once by the handler's reply when there is one and by no reply
      otherwise, and a reply stands nowhere else. */
  predicate WellRepliedAt(c: Config, outs: seq<Out>, i: nat)
    requires i < |outs|
  {
    match outs[i]
    case Deliver(msg) =>
      if c.handler(msg) != "" then i + 1 < |outs| && outs[i + 1] == Reply(c.handler(msg))
      else i + 1 == |outs| || !outs[i + 1].Reply?
    case Reply(_) => i > 0 && outs[i - 1].Deliver?
    case _ => true
  }

  predicate WellReplied(c: Config, outs: seq<Out>) {
    forall i :: 0 <= i < |outs| ==> WellRepliedAt(c, outs, i)
  }

  lemma WellRepliedConcat(c: Config, a: seq<Out>, b: seq<Out>)
    requires WellReplied(c, a) && WellReplied(c, b)
    ensures WellReplied(c, a + b)
  {
    forall i | 0 <= i < |a + b| ensures WellRepliedAt(c, a + b, i) {
      if i < |a| {
        assert WellRepliedAt(c, a, i);
        if b != [] {
          assert WellRepliedAt(c, b, 0);
        }
      } else {
        assert WellRepliedAt(c, b, i - |a|);
      }
    }
  }

  lemma ByteWellReplied(c: Config, buf: string, b: char)
    ensures WellReplied(c, Byte(c, buf, b).outs)
  {
  }

  /** So it is over every stream. */
  lemma {:induction false} RepliesFollow(c: Config, buf: string, s: string)
    ensures WellReplied(c, Feed(c, buf, s).outs)
  {
    hide WellReplied, Byte;
    if s == [] {
      NothingReplied(c);
    } else {
      var n := |s| - 1;
      RepliesFollow(c, buf, s[..n]);
      ByteWellReplied(c, Feed(c, buf, s[..n]).buf, s[n]);
      WellRepliedConcat(c, Feed(c, buf, s[..n]).outs, Byte(c, Feed(c, buf, s[..n]).buf, s[n]).outs);
    }
  }

  lemma NothingReplied(c: Config)
    ensures WellReplied(c, [])
  {
  }

  lemma {:induction false} NoPromptInFeed(c: Config, buf: string, s: string)
    ensures Prompt !in Feed(c, buf, s).outs
  {
    if s != [] {
      NoPromptInFeed(c, buf, s[..|s| - 1]);
    }
  }

  /** Every read of a session adds what its bytes bring about and then exactly one prompt. */
  lemma EachReadPrompts(c: Config, buf: string, chunks: seq<string>, s: string)
    ensures var before, after := Session(c, buf, chunks), Session(c, buf, chunks + [s]);
            var fed := Feed(c, before.buf, s);
            after == Fed(before.outs + fed.outs + [Prompt], fed.buf) && Prompt !in fed.outs && WellReplied(c, fed.outs)
  {
    hide Feed, WellReplied;
    assert (chunks + [s])[..|chunks|] == chunks;
    NoPromptInFeed(c, Session(c, buf, chunks).buf, s);
    RepliesFollow(c, Session(c, buf, chunks).buf, s);
  }

  /** Two sessions in a row are one, so what one read does tells what any number of them do. */
  lemma {:induction false} SessionConcat(c: Config, buf: string, a: seq<string>, b: seq<string>)
    ensures var f := Session(c, buf, a); var g := Session(c, f.buf, b);
            Session(c, buf, a + b) == Fed(f.outs + g.outs, g.buf)
    decreases |b|
  {
    hide Feed;
    if b == [] {
      assert a + b == a && Session(c, buf, a).outs + [] == Session(c, buf, a).outs;
    } else {
      var n := |b| - 1;
      SessionConcat(c, buf, a, b[..n]);
      assert (a + b)[..|a + b| - 1] == a + b[..n];
    }
  }

  // ----- the code -----

  /** `struct conn`, as far as the loop uses it. */
  class Conn {
    const config: Config
    const msgIn: array<char>
    var msgInLen: nat
    ghost var log: seq<Out>

    ghost predicate Valid()
      reads this
    {
      config.most > 0 && msgIn.Length == config.most + 1 && msgInLen <= config.most
    }

    ghost function Buffer(): string
      reads this, msgIn
      requires Valid()
    {
      msgIn[..msgInLen]
    }

    constructor (config: Config)
      requires config.most > 0
      ensures Valid() && fresh(msgIn) && this.config == config && Buffer() == "" && log == []
    {
      this.config := config;
      msgIn := new char[config.most + 1](_ => '\0');
      msgInLen, log := 0, [];
    }

    /** `data_event_handle` after a successful `read`; an empty read does nothing, not even a prompt. */
    method DataEventHandle(buf: string)
      requires Valid()
      modifies this, msgIn
      ensures Valid()
      ensures var s := Session(config, old(Buffer()), if buf == "" then [] else [buf]);
              Buffer() == s.buf && log == old(log) + s.outs
    {
      if buf == "" {
        return;
      }
      ghost var start, logged := Buffer(), log;
      for i := 0 to |buf|
        invariant Valid()
        invariant Fed(log, Buffer()) == Fed(logged + Feed(config, start, buf[..i]).outs, Feed(config, start, buf[..i]).buf)
      {
        FeedSnoc(config, start, buf[..i], buf[i]);
        assert buf[..i + 1] == buf[..i] + [buf[i]];
        HandleByte(buf[i]);
      }
      assert buf[..|buf|] == buf;
      log := log + [Prompt];
      assert [buf][..0] == [];
    }

    /** One turn of the loop. */
    method HandleByte(b: char)
      requires Valid()
      modifies this, msgIn
      ensures Valid()
      ensures Buffer() == Byte(config, old(Buffer()), b).buf
      ensures log == old(log) + Byte(config, old(Buffer()), b).outs
    {
      if b == '\n' {
        msgIn[msgInLen] := '\0';
        var msg := msgIn[..msgInLen];
        var msgOut := config.handler(msg);
        log := log + [Deliver(msg)];
        if msgOut != "" {
          log := log + [Reply(msgOut)];
        }
        msgInLen := 0;
      } else if msgInLen < config.most {
        msgIn[msgInLen] := b;
        msgInLen := msgInLen + 1;
      } else {
        log := log + [TooLong];
        msgInLen := 0;
      }
    }
  }
}
