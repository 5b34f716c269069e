/**
 The WebSocket frame parser and writer of `cgiwebsocket.c`, as a machine on values: one
 step per received octet.  The parser that works on receive buffers is in `WebSocket.dfy`.
 */
module WebSocketSpec {
  import opened Bytes

  const FLAG_FIN: byte := 0x80
  const IS_MASKED: byte := 0x80
  const OPCODE_CONTINUE: byte := 0x0
  const OPCODE_TEXT: byte := 0x1
  const OPCODE_BINARY: byte := 0x2
  const OPCODE_CLOSE: byte := 0x8
  const OPCODE_PING: byte := 0x9
  const OPCODE_PONG: byte := 0xA

  const ST_FLAGS: nat := 0
  const ST_LEN0: nat := 1
  const ST_LEN1: nat := 2
  const ST_LEN2: nat := 3
  const ST_LEN8: nat := 9
  const ST_MASK1: nat := 10
  const ST_MASK4: nat := 13
  const ST_PAYLOAD: nat := 14

  const WEBSOCK_FLAG_CONT: nat := 1
  const WEBSOCK_FLAG_BIN: nat := 2

  const TWO_TO_THE_64: nat := 0x1_0000_0000_0000_0000

  datatype Outcome = Open | ProtocolError | PeerClosed

  /** Everything `recvCb` was given for one frame: the concatenated payload and the flags. */
  datatype Delivery = Delivery(payload: seq<byte>, flags: nat)

  /** The fields of `WebsockPriv`, and what the parser has done so far: frames handed to
      `recvCb`, bytes handed to `httpdSend`, and whether it gave up the connection.
      The two reason bytes of the reply to a close frame are not among the sent bytes here:
      they depend on how the stream was cut up (see `WebSocket.Recv`). */
  datatype Parser = Parser(
    flags: byte, len8: byte, len: nat, mask: seq<byte>,
    maskCtr: nat, frameCont: bool, closedHere: bool, wsStatus: nat,
    outcome: Outcome, delivered: seq<Delivery>, sent: seq<byte>)
  {
    predicate Valid() {
      && Shape()
      && (outcome.Open? && wsStatus == ST_PAYLOAD ==> InFrame())
      && (outcome.Open? && wsStatus == ST_FLAGS ==> !frameCont)
    }

    predicate Shape() {
      && |mask| == 4
      && maskCtr < 256
      && wsStatus <= ST_PAYLOAD
      && (ST_FLAGS < wsStatus < ST_PAYLOAD ==> maskCtr == 0 && !frameCont)
    }

    /** The header was accepted and payload octets are still missing. */
    predicate InFrame() {
      && frameCont
      && len > 0
      && Opcode(flags) != OPCODE_CLOSE
      && (IsData(flags) ==> IsMasked(len8) && |delivered| > 0)
      && (Opcode(flags) == OPCODE_PING ==> len <= 125)
    }

    /** Between two frames, with the connection alive. */
    predicate Ready() {
      Valid() && outcome.Open? && wsStatus == ST_FLAGS
    }
  }

  /** `flags & OPCODE_MASK`, `len8 & PAYLOAD_MASK`, and the tests of the top bit. */
  function Opcode(flags: byte): byte { flags % 16 }

  function Len7(len8: byte): byte { len8 % 128 }

  predicate IsMasked(len8: byte) { len8 >= IS_MASKED }

  predicate IsFinal(flags: byte) { flags >= FLAG_FIN }

  predicate IsData(flags: byte) {
    Opcode(flags) == OPCODE_TEXT || Opcode(flags) == OPCODE_BINARY || Opcode(flags) == OPCODE_CONTINUE
  }

  function RecvFlags(flags: byte): nat {
    (if Opcode(flags) == OPCODE_BINARY then WEBSOCK_FLAG_BIN else 0)
    + (if !IsFinal(flags) then WEBSOCK_FLAG_CONT else 0)
  }

  /** The bytes `sendFrameHead` hands to `httpdSend`; `len` is a C int. */
  function FrameHead(opcode: byte, len: int): seq<byte>
    requires -0x8000_0000 <= len < 0x8000_0000
  {
    if len > 65535 then
      [opcode, 127, 0, 0, 0, 0, Low8(len / 0x100_0000), Low8(len / 0x1_0000), Low8(len / 0x100), Low8(len)]
    else if len > 125 then
      [opcode, 126, Low8(len / 0x100), Low8(len)]
    else
      [opcode, Low8(len)]
  }

  /** One header octet: the branches for ST_FLAGS, ST_LEN0, ST_LEN1..ST_LEN8 and ST_MASK1..ST_MASK4. */
  function Header(s: Parser, b: byte): (r: Parser)
    requires s.Shape() && s.wsStatus < ST_PAYLOAD
    ensures r.Shape() && r.outcome == s.outcome
    ensures r.maskCtr == 0 && !r.frameCont && r.wsStatus > ST_FLAGS
  {
    if s.wsStatus == ST_FLAGS then
      s.(maskCtr := 0, frameCont := false, flags := b, wsStatus := ST_LEN0)
    else if s.wsStatus == ST_LEN0 then
      if Len7(b) >= 126 then
        s.(len8 := b, len := 0, wsStatus := ST_LEN1)
      else
        s.(len8 := b, len := Len7(b), wsStatus := AfterLength(b))
    else if s.wsStatus <= ST_LEN8 then
      s.(len := (s.len * 256 + b) % TWO_TO_THE_64,
         wsStatus := if (Len7(s.len8) == 126 && s.wsStatus == ST_LEN2) || s.wsStatus == ST_LEN8
                     then AfterLength(s.len8) else s.wsStatus + 1)
    else
      s.(mask := s.mask[s.wsStatus - ST_MASK1 := b], wsStatus := s.wsStatus + 1)
  }

  function AfterLength(len8: byte): nat {
    if IsMasked(len8) then ST_MASK1 else ST_PAYLOAD
  }

  /** The end of a run of payload octets.  Between frames `frameCont` means nothing (the next
      flags octet resets it), so it is kept false there. */
  function EndRun(s: Parser): Parser {
    if s.len == 0 then s.(wsStatus := ST_FLAGS, frameCont := false) else s.(frameCont := true)
  }

  /** The header is complete: the reaction to it, before any payload octet. */
  function Begin(s: Parser): (r: Parser)
    requires s.Shape() && s.wsStatus == ST_PAYLOAD
    ensures r.Valid()
  {
    if Opcode(s.flags) == OPCODE_PING then
      if s.len > 125 then
        Fail(s)
      else
        EndRun(s.(sent := s.sent + FrameHead(OPCODE_PONG + FLAG_FIN, s.len)))
    else if IsData(s.flags) then
      if !IsMasked(s.len8) then
        Fail(s)
      else
        EndRun(s.(delivered := s.delivered + [Delivery([], RecvFlags(s.flags))]))
    else if Opcode(s.flags) == OPCODE_CLOSE then
      s.(closedHere := true, outcome := PeerClosed,
         sent := if s.closedHere then s.sent else s.sent + FrameHead(FLAG_FIN + OPCODE_CLOSE, 2))
    else
      EndRun(s)
  }

  /** `cgiWebsocketClose` with reason 1002, and the end of the connection. */
  function Fail(s: Parser): Parser
  {
    s.(closedHere := true, outcome := ProtocolError,
       sent := s.sent + FrameHead(FLAG_FIN + OPCODE_CLOSE, 2) + [Low8(1002 / 256), Low8(1002)])
  }

  /** A payload octet of a frame whose header was accepted. */
  function Octet(s: Parser, b: byte): (r: Parser)
    requires s.Valid() && s.outcome.Open? && s.wsStatus == ST_PAYLOAD
    ensures r.Valid()
  {
    var plain := Xor(b, s.mask[s.maskCtr % 4]);
    var t := s.(maskCtr := (s.maskCtr + 1) % 256, len := s.len - 1);
    EndRun(
      if Opcode(s.flags) == OPCODE_PING then t.(sent := s.sent + [plain])
      else if IsData(s.flags) then t.(delivered := AppendToLast(s.delivered, [plain]))
      else t)
  }

  function AppendToLast(ds: seq<Delivery>, p: seq<byte>): seq<Delivery>
    requires |ds| > 0
  {
    var last := ds[|ds| - 1];
    ds[|ds| - 1 := last.(payload := last.payload + p)]
  }

  function Step(s: Parser, b: byte): (r: Parser)
    requires s.Valid()
    ensures r.Valid()
  {
    if !s.outcome.Open? then
      s
    else if s.wsStatus == ST_PAYLOAD then
      Octet(s, b)
    else
      var h := Header(s, b);
      if h.wsStatus == ST_PAYLOAD then Begin(h) else h
  }

  function Run(s: Parser, bs: seq<byte>): (r: Parser)
    requires s.Valid()
    ensures r.Valid()
    decreases |bs|
  {
    if |bs| == 0 then s else Run(Step(s, bs[0]), bs[1..])
  }

  lemma {:induction false} RunSplit(s: Parser, a: seq<byte>, b: seq<byte>)
    requires s.Valid()
    ensures Run(s, a + b) == Run(Run(s, a), b)
    decreases |a|
  {
    if a == [] {
      assert a + b == b;
    } else {
      assert (a + b)[1..] == a[1..] + b;
      RunSplit(Step(s, a[0]), a[1..], b);
    }
  }

  lemma {:induction false} RunClosed(s: Parser, bs: seq<byte>)
    requires s.Valid() && !s.outcome.Open?
    ensures Run(s, bs) == s
    decreases |bs|
  {
    if bs != [] {
      RunClosed(s, bs[1..]);
    }
  }

  lemma RunOne(s: Parser, b: byte)
    requires s.Valid()
    ensures Run(s, [b]) == Step(s, b)
  {
    assert Run(Step(s, b), [b][1..]) == Step(s, b);
  }

  // ---------------------------------------------------------------- runs of payload octets

  /** Octet j of a payload run whose first octet meets the mask counter at `ctr`. */
  function Unmask(bs: seq<byte>, mask: seq<byte>, ctr: nat): (r: seq<byte>)
    requires |mask| == 4
    ensures |r| == |bs|
  {
    seq(|bs|, j requires 0 <= j < |bs| => Xor(bs[j], mask[(ctr + j) % 4]))
  }

  /** What a whole run of payload octets does at once. */
  function Octets(s: Parser, bs: seq<byte>): Parser
    requires s.Valid() && s.outcome.Open? && s.wsStatus == ST_PAYLOAD && |bs| <= s.len
  {
    var plain := Unmask(bs, s.mask, s.maskCtr);
    var t := s.(maskCtr := (s.maskCtr + |bs|) % 256, len := s.len - |bs|);
    EndRun(
      if Opcode(s.flags) == OPCODE_PING then t.(sent := s.sent + plain)
      else if IsData(s.flags) then t.(delivered := AppendToLast(s.delivered, plain))
      else t)
  }

  lemma UnmaskAt(bs: seq<byte>, mask: seq<byte>, ctr: nat, j: nat)
    requires |mask| == 4 && j < |bs|
    ensures Unmask(bs, mask, ctr)[j] == Xor(bs[j], mask[(ctr + j) % 4])
  {
  }

  /** A counter of eight bits is as good as an unbounded one for an index modulo four. */
  lemma WrapIsHarmless(n: nat)
    ensures n % 256 % 4 == n % 4
    ensures (n % 256 + 1) % 256 == (n + 1) % 256
  {
  }

  lemma UnmaskSplit(b: byte, bs: seq<byte>, mask: seq<byte>, ctr: nat)
    requires |mask| == 4 && ctr < 256
    ensures Unmask([b] + bs, mask, ctr) == [Xor(b, mask[ctr % 4])] + Unmask(bs, mask, (ctr + 1) % 256)
  {
    hide Xor;
    var rest := Unmask(bs, mask, (ctr + 1) % 256);
    forall j | 0 <= j < |bs|
      ensures Unmask([b] + bs, mask, ctr)[j + 1] == rest[j]
    {
      assert ([b] + bs)[j + 1] == bs[j];
    }
  }

  /** The octets of one frame go through the machine as one run, although the mask counter wraps. */
  lemma {:induction false} RunOctets(s: Parser, bs: seq<byte>)
    requires s.Valid() && s.outcome.Open? && s.wsStatus == ST_PAYLOAD && |bs| <= s.len
    ensures Run(s, bs) == Octets(s, bs)
    decreases |bs|
  {
    if |bs| == 0 {
      OctetsNone(s);
      assert bs == [];
    } else {
      var t := Step(s, bs[0]);
      assert bs == [bs[0]] + bs[1..];
      if s.len == 1 {
        OctetsLast(s, bs[0]);
        assert bs == [bs[0]];
        RunOne(s, bs[0]);
      } else {
        OctetsMore(s, bs[0], bs[1..]);
        RunOctets(t, bs[1..]);
      }
    }
  }

  lemma OctetsNone(s: Parser)
    requires s.Valid() && s.outcome.Open? && s.wsStatus == ST_PAYLOAD
    ensures Octets(s, []) == s
  {
    assert Unmask([], s.mask, s.maskCtr) == [];
    if IsData(s.flags) {
      var last := s.delivered[|s.delivered| - 1];
      assert last.payload + [] == last.payload;
      assert AppendToLast(s.delivered, []) == s.delivered;
    }
  }

  lemma UnmaskOne(s: Parser, b: byte)
    requires s.Valid()
    ensures Unmask([b], s.mask, s.maskCtr) == [Xor(b, s.mask[s.maskCtr % 4])]
  {
    assert [b] + [] == [b];
    UnmaskSplit(b, [], s.mask, s.maskCtr);
  }

  lemma OctetsLast(s: Parser, b: byte)
    requires s.Valid() && s.outcome.Open? && s.wsStatus == ST_PAYLOAD && s.len == 1
    ensures Octets(s, [b]) == Step(s, b)
  {
    UnmaskOne(s, b);
  }

  lemma OctetsMore(s: Parser, b: byte, bs: seq<byte>)
    requires s.Valid() && s.outcome.Open? && s.wsStatus == ST_PAYLOAD && 1 + |bs| <= s.len && s.len > 1
    ensures Step(s, b).outcome.Open? && Step(s, b).wsStatus == ST_PAYLOAD && Step(s, b).len == s.len - 1
    ensures Octets(s, [b] + bs) == Octets(Step(s, b), bs)
  {
    hide Xor, Unmask, Header, Begin, Run, AppendToLast;
    UnmaskSplit(b, bs, s.mask, s.maskCtr);
    UnmaskOne(s, b);
    var p := [Xor(b, s.mask[s.maskCtr % 4])];
    var q := Unmask(bs, s.mask, (s.maskCtr + 1) % 256);
    SentTwice(s.sent, p, q);
    if IsData(s.flags) {
      AppendTwice(s.delivered, p, q);
    }
    WrapTwice(s.maskCtr, |bs|);
  }

  lemma SentTwice(sent: seq<byte>, p: seq<byte>, q: seq<byte>)
    ensures sent + (p + q) == sent + p + q
  {
  }

  lemma WrapTwice(ctr: nat, n: nat)
    ensures ((ctr + 1) % 256 + n) % 256 == (ctr + (1 + n)) % 256
  {
  }

  lemma AppendTwice(ds: seq<Delivery>, p: seq<byte>, q: seq<byte>)
    requires |ds| > 0
    ensures AppendToLast(AppendToLast(ds, p), q) == AppendToLast(ds, p + q)
  {
    assert ds[|ds| - 1].payload + p + q == ds[|ds| - 1].payload + (p + q);
  }
}
