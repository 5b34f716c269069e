/**
 Frames of section 5.2 of RFC 6455 as octets, and what the parser makes of a stream of them.
 */
module WebSocketFrames {
  import opened Bytes
  import opened WebSocketSpec

  /** The three ways to write a payload length. */
  datatype LengthForm = Seven | Sixteen | SixtyFour

  datatype Frame = Frame(flags: byte, form: LengthForm, masked: bool, mask: seq<byte>, payload: seq<byte>)
  {
    /** The length fits the form it is written in; the top bit of a 64-bit length is zero. */
    predicate WellFormed() {
      && |mask| == 4
      && Fits(form, |payload|)
    }

    /** The low four bits of the first octet (section 5.2 of RFC 6455): 0, 1 and 2 are data, 8 closes, 9 pings. */
    function Kind(): nat { flags % 16 }

    /** A frame the parser must take from a client. */
    predicate Acceptable() {
      && WellFormed()
      && masked
      && Kind() != 8
      && (Kind() == 9 ==> |payload| <= 125)
    }

    function Head(): seq<byte> {
      [flags] + LengthField(form, masked, |payload|) + (if masked then mask else [])
    }

    /** The frame on the wire: octet j of the payload is masked with octet j mod 4 of the
        masking key (section 5.3 of RFC 6455). */
    function Wire(): seq<byte>
      requires WellFormed()
    {
      Head() + (if masked then ApplyMask(payload, mask) else payload)
    }
  }

  predicate Fits(form: LengthForm, n: nat) {
    match form
    case Seven => n <= 125
    case Sixteen => n < 0x1_0000
    case SixtyFour => n < 0x8000_0000_0000_0000
  }

  function BigEndian(n: nat, k: nat): (r: seq<byte>)
    ensures |r| == k
  {
    if k == 0 then [] else BigEndian(n / 256, k - 1) + [Low8(n)]
  }

  function LengthField(form: LengthForm, masked: bool, n: nat): seq<byte> {
    var top := if masked then 128 else 0;
    match form
    case Seven => [Low8(top + n)]
    case Sixteen => [top + 126] + BigEndian(n, 2)
    case SixtyFour => [top + 127] + BigEndian(n, 8)
  }

  function ApplyMask(bs: seq<byte>, mask: seq<byte>): (r: seq<byte>)
    requires |mask| == 4
    ensures |r| == |bs|
  {
    seq(|bs|, j requires 0 <= j < |bs| => Xor(bs[j], mask[j % 4]))
  }

  // ---------------------------------------------------------------- the header states alone

  /** The header states on a run of octets, stopping where the payload state is reached. */
  function HeaderRun(s: Parser, bs: seq<byte>): (r: Parser)
    requires s.Shape()
    ensures r.Shape() && r.outcome == s.outcome
    decreases |bs|
  {
    if |bs| == 0 || s.wsStatus == ST_PAYLOAD then s else HeaderRun(Header(s, bs[0]), bs[1..])
  }

  lemma {:induction false} HeaderRunSplit(s: Parser, a: seq<byte>, b: seq<byte>)
    requires s.Shape()
    ensures HeaderRun(s, a + b) == HeaderRun(HeaderRun(s, a), b)
    decreases |a|
  {
    if |a| == 0 {
      assert a + b == b;
    } else if s.wsStatus != ST_PAYLOAD {
      assert (a + b)[1..] == a[1..] + b;
      HeaderRunSplit(Header(s, a[0]), a[1..], b);
    }
  }

  lemma HeaderRunOne(s: Parser, b: byte)
    requires s.Shape() && s.wsStatus < ST_PAYLOAD
    ensures HeaderRun(s, [b]) == Header(s, b)
  {
    assert HeaderRun(Header(s, b), [b][1..]) == Header(s, b);
  }

  function Pow256(k: nat): nat { if k == 0 then 1 else 256 * Pow256(k - 1) }

  lemma Pow256Values()
    ensures Pow256(2) == 0x1_0000 && Pow256(8) == TWO_TO_THE_64
  {
    assert Pow256(4) == 0x1_0000_0000;
    assert Pow256(6) == 0x1_0000_0000_0000;
  }

  lemma {:induction false} Pow256Grows(j: nat, k: nat)
    requires j <= k
    ensures Pow256(j) <= Pow256(k)
    decreases k
  {
    if j < k {
      Pow256Grows(j, k - 1);
    }
  }

  lemma LengthStays(n: nat, j: nat)
    requires j <= 8 && n < Pow256(j)
    ensures (n / 256 * 256 + Low8(n)) % TWO_TO_THE_64 == n
  {
    Pow256Values();
    Pow256Grows(j, 8);
  }

  /** The extended length: after j of its k octets the accumulated length is what those j octets say. */
  lemma {:induction false} LengthOctets(s: Parser, n: nat, j: nat, k: nat)
    requires s.Shape() && s.wsStatus == ST_LEN1 && s.len == 0
    requires (k == 2 && Len7(s.len8) == 126) || (k == 8 && Len7(s.len8) == 127)
    requires j <= k && n < Pow256(j)
    ensures HeaderRun(s, BigEndian(n, j)) == s.(
      len := n, wsStatus := if j == k then AfterLength(s.len8) else ST_LEN1 + j)
  {
    if j > 0 {
      LengthOctets(s, n / 256, j - 1, k);
      LengthStays(n, j);
      HeaderRunSplit(s, BigEndian(n / 256, j - 1), [Low8(n)]);
      HeaderRunOne(HeaderRun(s, BigEndian(n / 256, j - 1)), Low8(n));
    }
  }

  lemma MaskOctets(s: Parser, mask: seq<byte>)
    requires s.Shape() && s.wsStatus == ST_MASK1 && |mask| == 4
    ensures HeaderRun(s, mask) == s.(mask := mask, wsStatus := ST_PAYLOAD)
  {
    assert mask == [mask[0]] + ([mask[1]] + ([mask[2]] + [mask[3]]));
    var s1, s2, s3 := Header(s, mask[0]), mask[1..], mask[2..];
    MaskOctet(s, mask, 0);
    MaskOctet(Header(s, mask[0]), mask, 1);
    MaskOctet(Header(Header(s, mask[0]), mask[1]), mask, 2);
    MaskOctet(Header(Header(Header(s, mask[0]), mask[1]), mask[2]), mask, 3);
    var t := Header(Header(Header(Header(s, mask[0]), mask[1]), mask[2]), mask[3]);
    assert t.mask == mask;
  }

  lemma MaskOctet(s: Parser, mask: seq<byte>, j: nat)
    requires s.Shape() && j < 4 && s.wsStatus == ST_MASK1 + j && |mask| == 4
    ensures HeaderRun(s, mask[j..]) == HeaderRun(Header(s, mask[j]), mask[j + 1..])
  {
    assert mask[j..][1..] == mask[j + 1..];
  }

  /** The parser state at the end of a frame header. */
  function Parsed(s: Parser, f: Frame): Parser {
    s.(flags := f.flags, len8 := LengthField(f.form, f.masked, |f.payload|)[0],
       len := |f.payload|, mask := if f.masked then f.mask else s.mask,
       maskCtr := 0, frameCont := false, wsStatus := ST_PAYLOAD)
  }

  /** The header states read every well-formed header back: flags, length and masking key. */
  lemma HeaderParses(s: Parser, f: Frame)
    requires s.Shape() && s.wsStatus == ST_FLAGS && f.WellFormed()
    ensures HeaderRun(s, f.Head()) == Parsed(s, f)
  {
    var field := LengthField(f.form, f.masked, |f.payload|);
    var tail := if f.masked then f.mask else [];
    var s1 := Header(s, f.flags);
    HeaderRunOne(s, f.flags);
    HeaderRunSplit(s, [f.flags], field);
    HeaderRunSplit(s, [f.flags] + field, tail);
    LengthParses(s1, f.form, f.masked, |f.payload|);
    if f.masked {
      MaskOctets(HeaderRun(s1, field), f.mask);
    }
  }

  lemma LengthParses(s: Parser, form: LengthForm, masked: bool, n: nat)
    requires s.Shape() && s.wsStatus == ST_LEN0 && Fits(form, n)
    ensures var field := LengthField(form, masked, n);
            HeaderRun(s, field) == s.(
              len8 := field[0], len := n, wsStatus := if masked then ST_MASK1 else ST_PAYLOAD)
  {
    var field := LengthField(form, masked, n);
    if form.Seven? {
      HeaderRunOne(s, field[0]);
      assert field == [field[0]];
      assert Len7(field[0]) == n && IsMasked(field[0]) == masked;
    } else {
      var k := if form.Sixteen? then 2 else 8;
      ExtendedLengthParses(s, field[0], n, k);
      assert field == [field[0]] + BigEndian(n, k);
    }
  }

  lemma ExtendedLengthParses(s: Parser, len8: byte, n: nat, k: nat)
    requires s.Shape() && s.wsStatus == ST_LEN0
    requires (k == 2 && Len7(len8) == 126 && n < 0x1_0000) || (k == 8 && Len7(len8) == 127 && n < TWO_TO_THE_64)
    ensures HeaderRun(s, [len8] + BigEndian(n, k)) == s.(len8 := len8, len := n, wsStatus := AfterLength(len8))
  {
    HeaderRunOne(s, len8);
    HeaderRunSplit(s, [len8], BigEndian(n, k));
    Pow256Values();
    LengthOctets(Header(s, len8), n, k, k);
  }

  // ---------------------------------------------------------------- the server's own header

  /** `sendFrameHead` writes the header of an unmasked frame, in the shortest length form
      (section 5.2 of RFC 6455), and the header states read the flags and the length back. */
  lemma FrameHeadParses(s: Parser, opcode: byte, len: int)
    requires s.Shape() && s.wsStatus == ST_FLAGS && 0 <= len < 0x8000_0000
    ensures var r := HeaderRun(s, FrameHead(opcode, len));
            && r.wsStatus == ST_PAYLOAD && r.flags == opcode && r.len == len && !IsMasked(r.len8)
    ensures forall form :: Fits(form, len) ==> |FrameHead(opcode, len)| <= 1 + |LengthField(form, false, len)|
  {
    var form := if len > 65535 then SixtyFour else if len > 125 then Sixteen else Seven;
    FrameHeadForm(opcode, len, form);
    HeaderRunOne(s, opcode);
    HeaderRunSplit(s, [opcode], LengthField(form, false, len));
    LengthParses(Header(s, opcode), form, false, len);
  }

  lemma FrameHeadForm(opcode: byte, len: int, form: LengthForm)
    requires 0 <= len < 0x8000_0000
    requires form == if len > 65535 then SixtyFour else if len > 125 then Sixteen else Seven
    ensures FrameHead(opcode, len) == [opcode] + LengthField(form, false, len)
  {
    if len > 65535 {
      BigEndianEight(len);
    } else if len > 125 {
      BigEndianTwo(len);
    }
  }

  lemma BigEndianTwo(n: nat)
    ensures BigEndian(n, 2) == [Low8(n / 256), Low8(n)]
  {
    assert BigEndian(n / 256 / 256, 0) == [];
  }

  lemma BigEndianStep(n: nat, k: nat)
    ensures BigEndian(n, k + 1) == BigEndian(n / 256, k) + [Low8(n)]
  {
  }

  lemma BigEndianEight(n: nat)
    requires n < 0x8000_0000
    ensures BigEndian(n, 8) == [0, 0, 0, 0, Low8(n / 0x100_0000), Low8(n / 0x1_0000), Low8(n / 0x100), Low8(n)]
  {
    var a, b, c := n / 0x100_0000, n / 0x1_0000, n / 0x100;
    assert b / 256 == a && c / 256 == b && n / 256 == c && a / 256 == 0;
    BigEndianTwo(0);
    BigEndianStep(0, 2);
    BigEndianStep(0, 3);
    BigEndianStep(a, 4);
    BigEndianStep(b, 5);
    BigEndianStep(c, 6);
    BigEndianStep(n, 7);
  }

  // ---------------------------------------------------------------- whole frames

  /** The machine on a header whose last octet completes it. */
  lemma {:induction false} RunHeader(s: Parser, bs: seq<byte>)
    requires s.Valid() && s.outcome.Open? && s.wsStatus < ST_PAYLOAD && |bs| > 0
    requires HeaderRun(s, bs[..|bs| - 1]).wsStatus < ST_PAYLOAD
    requires HeaderRun(s, bs).wsStatus == ST_PAYLOAD
    ensures Run(s, bs) == Begin(HeaderRun(s, bs))
    decreases |bs|
  {
    var h := Header(s, bs[0]);
    if |bs| == 1 {
      assert bs == [bs[0]];
      RunOne(s, bs[0]);
      HeaderRunOne(s, bs[0]);
    } else {
      var front := bs[..|bs| - 1];
      assert front[1..] == bs[1..][..|bs[1..]| - 1];
      assert HeaderRun(s, front) == HeaderRun(h, front[1..]);
      assert h.wsStatus < ST_PAYLOAD;
      RunHeader(h, bs[1..]);
    }
  }

  lemma HeadAllButLast(s: Parser, f: Frame)
    requires s.Shape() && s.wsStatus == ST_FLAGS && f.WellFormed()
    ensures |f.Head()| >= 2
    ensures HeaderRun(s, f.Head()[..|f.Head()| - 1]).wsStatus < ST_PAYLOAD
  {
    var head := f.Head();
    var front := head[..|head| - 1];
    assert head == front + [head[|head| - 1]];
    if HeaderRun(s, front).wsStatus == ST_PAYLOAD {
      EarlyStop(s, f, front);
    }
  }

  /** The payload state is not reached before the header ends. */
  lemma EarlyStop(s: Parser, f: Frame, front: seq<byte>)
    requires s.Shape() && s.wsStatus == ST_FLAGS && f.WellFormed()
    requires front == f.Head()[..|f.Head()| - 1]
    ensures HeaderRun(s, front).wsStatus < ST_PAYLOAD
  {
    var s1 := Header(s, f.flags);
    var field := LengthField(f.form, f.masked, |f.payload|);
    HeaderRunOne(s, f.flags);
    if f.masked {
      var m := f.mask[..3];
      assert front == [f.flags] + field + m;
      HeaderRunSplit(s, [f.flags], field);
      HeaderRunSplit(s, [f.flags] + field, m);
      LengthParses(s1, f.form, f.masked, |f.payload|);
      var t := HeaderRun(s1, field);
      assert m == [f.mask[0]] + [f.mask[1]] + [f.mask[2]];
      HeaderRunSplit(t, [f.mask[0]] + [f.mask[1]], [f.mask[2]]);
      HeaderRunSplit(t, [f.mask[0]], [f.mask[1]]);
      HeaderRunOne(t, f.mask[0]);
      HeaderRunOne(Header(t, f.mask[0]), f.mask[1]);
      HeaderRunOne(Header(Header(t, f.mask[0]), f.mask[1]), f.mask[2]);
    } else if f.form.Seven? {
      assert front == [f.flags];
    } else {
      var k := if f.form.Sixteen? then 2 else 8;
      var n := |f.payload|;
      assert field == [field[0]] + (BigEndian(n / 256, k - 1) + [Low8(n)]);
      assert front == [f.flags] + ([field[0]] + BigEndian(n / 256, k - 1));
      HeaderRunSplit(s, [f.flags], [field[0]] + BigEndian(n / 256, k - 1));
      HeaderRunSplit(s1, [field[0]], BigEndian(n / 256, k - 1));
      HeaderRunOne(s1, field[0]);
      Pow256Values();
      assert n / 256 < Pow256(k - 1);
      LengthOctets(Header(s1, field[0]), n / 256, k - 1, k);
    }
  }

  /** What the parser decides at the end of a header, before any payload octet arrives. */
  lemma HeaderDecides(s: Parser, f: Frame)
    requires s.Ready() && f.WellFormed()
    ensures Run(s, f.Head()) == Begin(Parsed(s, f))
    ensures Run(s, f.Head()).outcome ==
      if f.Kind() == 8 then PeerClosed
      else if (f.Kind() == 9 && |f.payload| > 125) || (f.Kind() <= 2 && !f.masked) then ProtocolError
      else Open
    ensures f.Kind() == 8 ==>
              var r := Run(s, f.Head());
              r.delivered == s.delivered && r.sent == s.sent + if s.closedHere then [] else [0x88, 2]
  {
    HeaderParses(s, f);
    HeadAllButLast(s, f);
    hide Begin, Parsed, HeaderRun, Run;
    RunHeader(s, f.Head());
    BeginDecides(s, f);
  }

  lemma BeginDecides(s: Parser, f: Frame)
    requires s.Ready() && f.WellFormed()
    ensures Begin(Parsed(s, f)).outcome ==
      if f.Kind() == 8 then PeerClosed
      else if (f.Kind() == 9 && |f.payload| > 125) || (f.Kind() <= 2 && !f.masked) then ProtocolError
      else Open
    ensures f.Kind() == 8 ==>
              var r := Begin(Parsed(s, f));
              r.delivered == s.delivered && r.sent == s.sent + if s.closedHere then [] else [0x88, 2]
  {
    MaskBit(f);
    hide LengthField;
  }

  /** The top bit of the length octet is the mask bit. */
  lemma MaskBit(f: Frame)
    requires f.WellFormed()
    ensures IsMasked(LengthField(f.form, f.masked, |f.payload|)[0]) == f.masked
  {
    hide BigEndian;
  }

  /** Nothing is decided before the last octet of a header. */
  lemma HeadOpen(s: Parser, f: Frame)
    requires s.Ready() && f.WellFormed()
    ensures |f.Head()| >= 2 && Run(s, f.Head()[..|f.Head()| - 1]).outcome.Open?
  {
    HeadAllButLast(s, f);
    RunWithin(s, f.Head()[..|f.Head()| - 1]);
  }

  lemma {:induction false} RunWithin(s: Parser, bs: seq<byte>)
    requires s.Valid() && s.outcome.Open? && s.wsStatus < ST_PAYLOAD && HeaderRun(s, bs).wsStatus < ST_PAYLOAD
    ensures Run(s, bs).outcome.Open?
    decreases |bs|
  {
    if bs != [] {
      var h := Header(s, bs[0]);
      assert HeaderRun(s, bs) == HeaderRun(h, bs[1..]);
      if h.wsStatus < ST_PAYLOAD {
        RunWithin(h, bs[1..]);
      }
    }
  }

  /** A data frame without a mask, or a ping longer than 125 octets, is answered with a close
      frame carrying code 1002; nothing of it reaches `recvCb`, and nothing after it is read. */
  lemma BadFrameRejected(s: Parser, f: Frame, rest: seq<byte>)
    requires s.Ready() && f.WellFormed()
    requires (f.Kind() == 9 && |f.payload| > 125) || (f.Kind() <= 2 && !f.masked)
    ensures var r := Run(s, f.Head() + rest);
            && r.outcome.ProtocolError?
            && r.delivered == s.delivered
            && r.sent == s.sent + [0x88, 2, 0x03, 0xEA]
  {
    hide Run;
    HeaderDecides(s, f);
    BadFrameFails(s, f);
    hide Begin, Parsed, FrameHead;
    RunSplit(s, f.Head(), rest);
    RunClosed(Run(s, f.Head()), rest);
  }

  lemma BadFrameFails(s: Parser, f: Frame)
    requires s.Ready() && f.WellFormed()
    requires (f.Kind() == 9 && |f.payload| > 125) || (f.Kind() <= 2 && !f.masked)
    requires IsMasked(LengthField(f.form, f.masked, |f.payload|)[0]) == f.masked
    ensures var r := Begin(Parsed(s, f));
            r.outcome.ProtocolError? && r.delivered == s.delivered && r.sent == s.sent + [0x88, 2, 0x03, 0xEA]
  {
    assert FrameHead(FLAG_FIN + OPCODE_CLOSE, 2) == [0x88, 2];
    assert s.sent + [0x88, 2] + [0x03, 0xEA] == s.sent + [0x88, 2, 0x03, 0xEA];
  }

  /** What an acceptable frame gives to `recvCb`: its payload, with 2 for a binary frame and 1 for one that another
      fragment follows. */
  function DeliveryOf(f: Frame): seq<Delivery> {
    if f.Kind() > 2 then []
    else [Delivery(f.payload, (if f.Kind() == 2 then 2 else 0) + (if f.flags < 128 then 1 else 0))]
  }

  /** What it makes the server send: a pong frame of the same payload for a ping. */
  function ReplyTo(f: Frame): seq<byte>
    requires f.Acceptable()
  {
    if f.Kind() == 9 then [0x8A, |f.payload|] + f.payload else []
  }

  lemma NamedNumbers(f: Frame)
    requires f.Acceptable()
    ensures IsData(f.flags) <==> f.Kind() <= 2
    ensures DeliveryOf(f) == if IsData(f.flags) then [Delivery(f.payload, RecvFlags(f.flags))] else []
    ensures Opcode(f.flags) == OPCODE_PING <==> f.Kind() == 9
    ensures ReplyTo(f) == if f.Kind() == 9 then FrameHead(OPCODE_PONG + FLAG_FIN, |f.payload|) + f.payload else []
  {
  }

  lemma UnmaskMasked(p: seq<byte>, mask: seq<byte>)
    requires |mask| == 4
    ensures Unmask(ApplyMask(p, mask), mask, 0) == p
  {
    forall j | 0 <= j < |p|
      ensures Unmask(ApplyMask(p, mask), mask, 0)[j] == p[j]
    {
      XorTwice(p[j], mask[j % 4]);
    }
  }

  /** One frame, whole: its payload reaches `recvCb` in the clear, or comes back in a pong. */
  lemma FrameParsed(s: Parser, f: Frame)
    requires s.Ready() && f.Acceptable()
    ensures var r := Run(s, f.Wire());
            && r.Ready()
            && r.delivered == s.delivered + DeliveryOf(f)
            && r.sent == s.sent + ReplyTo(f)
            && r.closedHere == s.closedHere
  {
    var body := ApplyMask(f.payload, f.mask);
    var t := Begin(Parsed(s, f));
    NamedNumbers(f);
    HeaderDecides(s, f);
    RunSplit(s, f.Head(), body);
    UnmaskMasked(f.payload, f.mask);
    if |f.payload| == 0 {
      assert body == [];
      assert FrameHead(OPCODE_PONG + FLAG_FIN, 0) + f.payload == FrameHead(OPCODE_PONG + FLAG_FIN, 0);
    } else {
      RunOctets(t, body);
      BodyParsed(s, f, t, body);
    }
  }

  lemma BodyParsed(s: Parser, f: Frame, t: Parser, body: seq<byte>)
    requires s.Ready() && f.Acceptable() && |f.payload| > 0
    requires t == Begin(Parsed(s, f)) && |body| == |f.payload| && Unmask(body, f.mask, 0) == f.payload
    ensures t.Valid() && t.outcome.Open? && t.wsStatus == ST_PAYLOAD && |body| <= t.len
    ensures var r := Octets(t, body);
            && r.Ready()
            && r.delivered == s.delivered + DeliveryOf(f)
            && r.sent == s.sent + ReplyTo(f)
            && r.closedHere == s.closedHere
  {
    NamedNumbers(f);
    hide DeliveryOf, ReplyTo;
    if IsData(f.flags) {
      DataBody(s, f, t, body);
    } else if Opcode(f.flags) == OPCODE_PING {
      PingBody(s, f, t, body);
    }
  }

  lemma DataBody(s: Parser, f: Frame, t: Parser, body: seq<byte>)
    requires s.Ready() && f.Acceptable() && |f.payload| > 0 && IsData(f.flags)
    requires t == Begin(Parsed(s, f)) && |body| == |f.payload| && Unmask(body, f.mask, 0) == f.payload
    ensures t.Valid() && t.outcome.Open? && t.wsStatus == ST_PAYLOAD && |body| <= t.len
    ensures var r := Octets(t, body);
            && r.Ready() && r.delivered == s.delivered + [Delivery(f.payload, RecvFlags(f.flags))]
            && r.sent == s.sent && r.closedHere == s.closedHere
  {
    hide Unmask, RecvFlags, FrameHead;
    var empty := Delivery([], RecvFlags(f.flags));
    assert [] + f.payload == f.payload;
    assert AppendToLast(s.delivered + [empty], f.payload) == s.delivered + [empty.(payload := f.payload)];
  }

  lemma PingBody(s: Parser, f: Frame, t: Parser, body: seq<byte>)
    requires s.Ready() && f.Acceptable() && |f.payload| > 0 && Opcode(f.flags) == OPCODE_PING
    requires t == Begin(Parsed(s, f)) && |body| == |f.payload| && Unmask(body, f.mask, 0) == f.payload
    ensures t.Valid() && t.outcome.Open? && t.wsStatus == ST_PAYLOAD && |body| <= t.len
    ensures var r := Octets(t, body);
            && r.Ready() && r.delivered == s.delivered && r.closedHere == s.closedHere
            && r.sent == s.sent + (FrameHead(OPCODE_PONG + FLAG_FIN, |f.payload|) + f.payload)
  {
    hide Unmask, FrameHead;
    var head := FrameHead(OPCODE_PONG + FLAG_FIN, |f.payload|);
    assert s.sent + head + f.payload == s.sent + (head + f.payload);
  }

  // ---------------------------------------------------------------- streams of frames

  predicate AllAcceptable(fs: seq<Frame>) {
    forall i :: 0 <= i < |fs| ==> fs[i].Acceptable()
  }

  function Stream(fs: seq<Frame>): seq<byte>
    requires AllAcceptable(fs)
  {
    if fs == [] then [] else fs[0].Wire() + Stream(fs[1..])
  }

  function Deliveries(fs: seq<Frame>): seq<Delivery> {
    if fs == [] then [] else DeliveryOf(fs[0]) + Deliveries(fs[1..])
  }

  function Replies(fs: seq<Frame>): seq<byte>
    requires AllAcceptable(fs)
  {
    if fs == [] then [] else ReplyTo(fs[0]) + Replies(fs[1..])
  }

  /** The machine on successive receive calls. */
  function RunPieces(s: Parser, pieces: seq<seq<byte>>): (r: Parser)
    requires s.Valid()
    ensures r.Valid()
    decreases |pieces|
  {
    if |pieces| == 0 then s else RunPieces(Run(s, pieces[0]), pieces[1..])
  }

  /** How a stream is cut into receive calls makes no difference to the state, to what
      `recvCb` is given, or to what is sent. */
  lemma {:induction false} SplitIrrelevant(s: Parser, pieces: seq<seq<byte>>)
    requires s.Valid()
    ensures RunPieces(s, pieces) == Run(s, Flatten(pieces))
    decreases |pieces|
  {
    if |pieces| > 0 {
      RunSplit(s, pieces[0], Flatten(pieces[1..]));
      SplitIrrelevant(Run(s, pieces[0]), pieces[1..]);
    }
  }

  lemma {:induction false} StreamParsed(s: Parser, fs: seq<Frame>)
    requires s.Ready() && AllAcceptable(fs)
    ensures var r := Run(s, Stream(fs));
            && r.Ready()
            && r.delivered == s.delivered + Deliveries(fs)
            && r.sent == s.sent + Replies(fs)
            && r.closedHere == s.closedHere
    decreases |fs|
  {
    if fs == [] {
      assert s.delivered + [] == s.delivered && s.sent + [] == s.sent;
    } else {
      var t := Run(s, fs[0].Wire());
      FrameParsed(s, fs[0]);
      RunSplit(s, fs[0].Wire(), Stream(fs[1..]));
      StreamParsed(t, fs[1..]);
      JoinFirst(s.delivered, DeliveryOf(fs[0]), Deliveries(fs[1..]));
      JoinFirst(s.sent, ReplyTo(fs[0]), Replies(fs[1..]));
    }
  }

  lemma JoinFirst<T>(a: seq<T>, b: seq<T>, c: seq<T>)
    ensures a + b + c == a + (b + c)
  {
  }

  /** Every stream of acceptable frames, cut up in any way: `recvCb` gets exactly the clear
      payloads with their flags, pings are answered with their own payload, and the parser is
      ready for the next frame. */
  lemma AnySegmentation(s: Parser, fs: seq<Frame>, pieces: seq<seq<byte>>)
    requires s.Ready() && AllAcceptable(fs)
    requires Flatten(pieces) == Stream(fs)
    ensures var r := RunPieces(s, pieces);
            && r.Ready()
            && r.delivered == s.delivered + Deliveries(fs)
            && r.sent == s.sent + Replies(fs)
  {
    SplitIrrelevant(s, pieces);
    StreamParsed(s, fs);
  }
}
