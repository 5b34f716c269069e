/**
 The frame parser of `cgiwebsocket.c` as it runs: over one receive buffer at a time, unmasking
 in place, taking all the payload octets of a buffer in one go.
 */
module WebSocket {
  import opened Bytes
  import opened WebSocketSpec
  import WebSocketFrames

  datatype CgiState = More | Done

  /** One call of `recvCb`; `first` says that it is the first for its frame. */
  datatype Call = Call(first: bool, payload: seq<byte>, flags: nat)

  /** The calls of `recvCb`, joined frame by frame. */
  ghost function Joined(calls: seq<Call>): seq<Delivery> {
    if calls == [] then [] else
      var c := calls[|calls| - 1];
      var before := Joined(calls[..|calls| - 1]);
      if c.first || before == [] then before + [Delivery(c.payload, c.flags)] else AppendToLast(before, c.payload)
  }

  lemma JoinedAppend(calls: seq<Call>, c: Call)
    ensures Joined(calls + [c]) ==
      if c.first || Joined(calls) == [] then Joined(calls) + [Delivery(c.payload, c.flags)]
      else AppendToLast(Joined(calls), c.payload)
  {
    assert (calls + [c])[..|calls|] == calls;
  }

  /** The first octet of a frame sent with WEBSOCK_FLAG_* flags. */
  function SendOpcode(sendFlags: nat): byte
    requires sendFlags < 4
  {
    (if sendFlags >= 2 then OPCODE_BINARY else OPCODE_TEXT) + (if sendFlags % 2 == 0 then FLAG_FIN else 0)
  }

  /** Flags given to `cgiWebsocketSend` are the flags the same parser would hand to `recvCb`
      for the frame, and the header is read back with the length of the data. */
  lemma SentFlagsComeBack(s: Parser, sendFlags: nat, len: nat)
    requires s.Shape() && s.wsStatus == ST_FLAGS && sendFlags < 4 && len < 0x8000_0000
    ensures var r := WebSocketFrames.HeaderRun(s, FrameHead(SendOpcode(sendFlags), len));
            r.wsStatus == ST_PAYLOAD && IsData(r.flags) && RecvFlags(r.flags) == sendFlags && r.len == len
    ensures [SendOpcode(0), SendOpcode(1), SendOpcode(2), SendOpcode(3)] == [0x81, 0x01, 0x82, 0x02]
  {
    WebSocketFrames.FrameHeadParses(s, SendOpcode(sendFlags), len);
  }

  function Reason(reason: int): seq<byte> { [Low8(reason / 256), Low8(reason)] }

  /** How many octets the machine reads before it gives up the connection. */
  ghost function ReadUntilClosed(s: Parser, bs: seq<byte>): (n: nat)
    requires s.Valid()
    ensures n <= |bs|
    decreases |bs|
  {
    if |bs| == 0 || !s.outcome.Open? then 0 else 1 + ReadUntilClosed(Step(s, bs[0]), bs[1..])
  }

  lemma {:induction false} ReadUntilClosedSplit(s: Parser, a: seq<byte>, b: seq<byte>)
    requires s.Valid() && Run(s, a).outcome.Open?
    ensures ReadUntilClosed(s, a + b) == |a| + ReadUntilClosed(Run(s, a), b)
    decreases |a|
  {
    if |a| == 0 {
      assert a + b == b;
    } else {
      if !s.outcome.Open? {
        RunClosed(s, a);
      }
      assert (a + b)[1..] == a[1..] + b;
      ReadUntilClosedSplit(Step(s, a[0]), a[1..], b);
    }
  }

  /** The two bytes a close reply carries when the close frame's header ends at `k` in a buffer
      of `len` received bytes: unmasked where they belong to the payload received so far, and
      raw memory where they do not. */
  ghost function CloseEcho(memory: seq<byte>, len: nat, k: nat, s: Parser): (e: seq<byte>)
    requires k <= len && len + 2 <= |memory| && s.Valid()
  {
    var sl := if len - k > s.len then s.len else len - k;
    [if sl > 0 then Xor(memory[k], s.mask[0]) else memory[k],
     if sl > 1 then Xor(memory[k + 1], s.mask[1]) else memory[k + 1]]
  }

  /** The reply to a close frame of which `tail` came behind its header, in the buffer `received` with the
      end of the header at k: it carries the peer's status code, whatever lies in memory behind the buffer,
      exactly when both octets of the code came. */
  lemma EchoOfTail(received: seq<byte>, k: nat, s: Parser, payload: seq<byte>, tail: seq<byte>)
    requires s.Valid() && s.len == |payload| >= 2 && k <= |received| && received[k..] == tail
    requires Came(WebSocketFrames.ApplyMask(payload, s.mask), tail)
    ensures (forall more: seq<byte> :: |more| == 2 ==> CloseEcho(received + more, |received|, k, s) == payload[..2])
       <==> |tail| >= 2
  {
    if |tail| >= 2 {
      forall more: seq<byte> | |more| == 2
        ensures CloseEcho(received + more, |received|, k, s) == payload[..2]
      {
        assert received[k] == tail[0] && received[k + 1] == tail[1];
        XorTwice(payload[0], s.mask[0]);
        XorTwice(payload[1], s.mask[1]);
      }
    } else {
      var other := if payload[1] == 0 then 1 else 0;
      var more := [other, other];
      assert CloseEcho(received + more, |received|, k, s)[1] == other;
      assert payload[..2][1] == payload[1];
    }
  }

  /** As many octets of the body as there are in `tail`, or all of them and then anything. */
  predicate Came(body: seq<byte>, tail: seq<byte>) { forall j :: 0 <= j < |tail| && j < |body| ==> tail[j] == body[j] }

  /** A masked close frame at the end of a stream of acceptable frames; `front` came in earlier buffers, and the
      close frame's header ends in `received`, where `tail` follows it: some of its payload, or all of it
      and more.  The frames are delivered, the frame is replied to, and nothing behind its header
      is read; the reply carries the peer's status code, whatever lies in memory behind the buffer, if and
      only if both octets of it are in this buffer. */
  lemma CloseReplyEchoes(s: Parser, fs: seq<WebSocketFrames.Frame>, f: WebSocketFrames.Frame,
                         front: seq<byte>, received: seq<byte>, tail: seq<byte>)
    requires s.Ready() && WebSocketFrames.AllAcceptable(fs)
    requires f.WellFormed() && f.masked && f.Kind() == 8 && |f.payload| >= 2
    requires front + received == WebSocketFrames.Stream(fs) + f.Head() + tail
    requires |tail| < |received| && Came(WebSocketFrames.ApplyMask(f.payload, f.mask), tail)
    ensures var t := Run(s, front);
            var r, k := Run(t, received), ReadUntilClosed(t, received);
            && t.outcome.Open? && r.outcome.PeerClosed? && k == |received| - |tail|
            && r.delivered == s.delivered + WebSocketFrames.Deliveries(fs)
            && r.sent == s.sent + WebSocketFrames.Replies(fs)
                         + (if s.closedHere then [] else [0x88, 2])
            && ((forall more: seq<byte> :: |more| == 2 ==>
                   CloseEcho(received + more, |received|, k, r) == f.payload[..2])
                <==> |tail| >= 2)
  {
    hide Run, ReadUntilClosed, CloseEcho, WebSocketFrames.Deliveries, WebSocketFrames.Replies, WebSocketFrames.Stream;
    var whole := WebSocketFrames.Stream(fs) + f.Head();
    var closed := CloseFrameRead(s, fs, f);
    var t := Run(s, front);
    OpenBefore(s, whole, front, received, tail);
    RunSplit(s, whole, tail);
    RunClosed(closed, tail);
    RunSplit(s, front, received);
    ClosedThere(s, whole, tail);
    ReadUntilClosedSplit(s, front, received);
    var k := |received| - |tail|;
    assert received[k..] == tail by {
      assert received == (front + received)[|front|..];
      assert tail == (whole + tail)[|whole|..];
    }
    EchoOfTail(received, k, closed, f.payload, tail);
  }

  /** The frames and the header of the close frame; the connection is open up to the last octet. */
  lemma CloseFrameRead(s: Parser, fs: seq<WebSocketFrames.Frame>, f: WebSocketFrames.Frame) returns (closed: Parser)
    requires s.Ready() && WebSocketFrames.AllAcceptable(fs)
    requires f.WellFormed() && f.masked && f.Kind() == 8
    ensures var whole := WebSocketFrames.Stream(fs) + f.Head();
            && |whole| > 0 && Run(s, whole[..|whole| - 1]).outcome.Open? && Run(s, whole) == closed
    ensures closed.Valid() && closed.outcome.PeerClosed? && closed.len == |f.payload| && closed.mask == f.mask
    ensures closed.delivered == s.delivered + WebSocketFrames.Deliveries(fs)
    ensures closed.sent == s.sent + WebSocketFrames.Replies(fs)
                           + (if s.closedHere then [] else [0x88, 2])
  {
    hide Run, WebSocketFrames.Deliveries, WebSocketFrames.Replies, WebSocketFrames.Stream;
    var stream, head := WebSocketFrames.Stream(fs), f.Head();
    var u := Run(s, stream);
    WebSocketFrames.StreamParsed(s, fs);
    WebSocketFrames.HeaderDecides(u, f);
    WebSocketFrames.HeadOpen(u, f);
    closed := Run(u, head);
    RunSplit(s, stream, head);
    var almost := head[..|head| - 1];
    RunSplit(s, stream, almost);
    assert (stream + head)[..|stream + head| - 1] == stream + almost;
  }

  lemma OpenBefore(s: Parser, whole: seq<byte>, front: seq<byte>, received: seq<byte>, tail: seq<byte>)
    requires s.Valid() && |whole| > 0 && Run(s, whole[..|whole| - 1]).outcome.Open?
    requires front + received == whole + tail && |tail| < |received|
    ensures Run(s, front).outcome.Open?
  {
    hide Run;
    var almost := whole[..|whole| - 1];
    assert |front| <= |almost|;
    assert front == (front + received)[..|front|] == (whole + tail)[..|front|] == almost[..|front|];
    assert almost == front + almost[|front|..];
    StillOpen(s, front, almost[|front|..]);
  }

  lemma ClosedThere(s: Parser, whole: seq<byte>, tail: seq<byte>)
    requires s.Valid() && |whole| > 0 && Run(s, whole[..|whole| - 1]).outcome.Open? && !Run(s, whole).outcome.Open?
    ensures ReadUntilClosed(s, whole + tail) == |whole|
  {
    hide Run, ReadUntilClosed;
    var x, b := whole[..|whole| - 1], whole[|whole| - 1];
    assert whole == x + [b];
    ClosedBy(s, x, b, tail);
  }

  lemma ClosedBy(s: Parser, x: seq<byte>, b: byte, tail: seq<byte>)
    requires s.Valid() && Run(s, x).outcome.Open? && !Run(s, x + [b]).outcome.Open?
    ensures ReadUntilClosed(s, x + [b] + tail) == |x| + 1
  {
    hide Run, ReadUntilClosed, Step;
    var bs := x + [b] + tail;
    assert bs[..|x|] == x && bs[|x|] == b;
    RunSplit(s, x, [b]);
    RunOneAny(Run(s, x), b);
    ClosedAt(s, bs, |x|);
  }

  lemma RunOneAny(s: Parser, b: byte)
    requires s.Valid()
    ensures Run(s, [b]) == Step(s, b)
  {
    assert [b][1..] == [];
    assert Run(Step(s, b), []) == Step(s, b);
  }

  class Connection {
    var flags: byte
    var len8: byte
    var frLen: nat
    const mask: array<byte>
    var maskCtr: nat
    var frameCont: bool
    var closedHere: bool
    var wsStatus: nat

    // What the rest of the server sees.
    ghost var outcome: Outcome
    ghost var calls: seq<Call>
    ghost var sent: seq<byte>   // everything handed to httpdSend, but for
    ghost var echo: seq<byte>   // the reason bytes of a reply to a close frame, which come last

    /** The state as a value; `frameCont` means nothing between frames, and nothing at all is
        left of `maskCtr` once the connection is given up and its state freed. */
    ghost function View(): Parser
      reads this, mask
    {
      Parser(flags, len8, frLen, mask[..],
             if outcome.Open? then maskCtr else 0, frameCont && wsStatus != ST_FLAGS,
             closedHere, wsStatus, outcome, Joined(calls), sent)
    }

    ghost predicate Valid()
      reads this, mask
    {
      mask.Length == 4 && View().Valid() && (outcome.Open? ==> echo == [])
    }

    constructor ()
      ensures Valid() && fresh(mask) && View().Ready() && sent == [] && calls == [] && !closedHere
    {
      flags, len8, frLen, maskCtr := 0, 0, 0, 0;
      mask := new byte[4](_ => 0);
      frameCont, closedHere, wsStatus := false, false, ST_FLAGS;
      outcome, calls, sent, echo := Open, [], [], [];
    }

    method HttpdSend(bytes: seq<byte>)
      modifies this`sent
      ensures sent == old(sent) + bytes
    {
      sent := sent + bytes;
    }

    method SendFrameHead(opcode: byte, len: int)
      requires -0x8000_0000 <= len < 0x8000_0000
      modifies this`sent
      ensures sent == old(sent) + FrameHead(opcode, len)
    {
      var buf := new byte[14](_ => 0);
      var i := 0;
      buf[0] := opcode;
      if len > 65535 {
        buf[1] := 127;
        buf[2], buf[3], buf[4], buf[5] := 0, 0, 0, 0;
        buf[6] := Low8(len / 0x100_0000);
        buf[7] := Low8(len / 0x1_0000);
        buf[8] := Low8(len / 0x100);
        buf[9] := Low8(len);
        i := 10;
      } else if len > 125 {
        buf[1] := 126;
        buf[2] := Low8(len / 0x100);
        buf[3] := Low8(len);
        i := 4;
      } else {
        buf[1] := Low8(len);
        i := 2;
      }
      HttpdSend(buf[..i]);
    }

    /** `cgiWebsocketSend`; the flush that follows belongs to the connection. */
    method Send(data: seq<byte>, sendFlags: nat)
      requires |data| < 0x8000_0000 && sendFlags < 4
      modifies this`sent
      ensures sent == old(sent) + FrameHead(SendOpcode(sendFlags), |data|) + data
    {
      var fl := if sendFlags / WEBSOCK_FLAG_BIN % 2 == 1 then OPCODE_BINARY else OPCODE_TEXT;
      if sendFlags % 2 != WEBSOCK_FLAG_CONT {
        fl := fl + FLAG_FIN;
      }
      SendFrameHead(fl, |data|);
      if |data| != 0 {
        HttpdSend(data);
      }
    }

    method SendReason(bytes: seq<byte>, ghost copied: bool)
      modifies this`sent, this`echo
      ensures sent == old(sent) + if copied then [] else bytes
      ensures echo == if copied then bytes else old(echo)
    {
      sent, echo := sent + if copied then [] else bytes, if copied then bytes else echo;
    }

    /** `cgiWebsocketClose`, for a reason of our own or one copied from a close frame. */
    method Close(reason: int, ghost copied: bool)
      requires 0 <= reason < 0x1_0000
      modifies this`sent, this`closedHere, this`echo
      ensures sent == old(sent) + FrameHead(FLAG_FIN + OPCODE_CLOSE, 2) + if copied then [] else Reason(reason)
      ensures echo == if copied then Reason(reason) else old(echo)
      ensures closedHere
    {
      SendFrameHead(FLAG_FIN + OPCODE_CLOSE, 2);
      SendReason([Low8(reason / 256), Low8(reason)], copied);
      closedHere := true;
    }

    /** A run of octets is unmasked where it lies; the counter wraps at 256. */
    method UnmaskInPlace(data: array<byte>, i: nat, sl: nat)
      requires mask.Length == 4 && maskCtr < 256 && data != mask && i + sl <= data.Length
      modifies data, this`maskCtr
      ensures data[i..i + sl] == Unmask(old(data[i..i + sl]), mask[..], old(maskCtr))
      ensures data[i + sl..] == old(data[i + sl..])
      ensures maskCtr == (old(maskCtr) + sl) % 256
    {
      hide Xor, Unmask;
      ghost var memory := data[..];
      ghost var plain := Unmask(memory[i..i + sl], mask[..], maskCtr);
      for j := 0 to sl
        invariant maskCtr == (old(maskCtr) + j) % 256
        invariant forall k :: 0 <= k < data.Length ==>
          data[k] == if i <= k < i + j then plain[k - i] else memory[k]
      {
        WrapIsHarmless(old(maskCtr) + j);
        UnmaskAt(memory[i..i + sl], mask[..], old(maskCtr), j);
        data[i + j] := Xor(data[i + j], mask[maskCtr % 4]);
        maskCtr := (maskCtr + 1) % 256;
      }
    }

    /** The states before ST_PAYLOAD; false when the octet belongs to the payload. */
    method HeaderOctet(b: byte) returns (wasHeaderByte: bool)
      requires Valid() && outcome.Open?
      modifies this, mask
      ensures wasHeaderByte == old(wsStatus < ST_PAYLOAD)
      ensures mask.Length == 4 && echo == []
      ensures View() == if wasHeaderByte then Header(old(View()), b) else old(View())
    {
      wasHeaderByte := true;
      if wsStatus == ST_FLAGS {
        maskCtr := 0;
        frameCont := false;
        flags := b;
        wsStatus := ST_LEN0;
      } else if wsStatus == ST_LEN0 {
        len8 := b;
        if Len7(len8) >= 126 {
          frLen := 0;
          wsStatus := ST_LEN1;
        } else {
          frLen := Len7(len8);
          wsStatus := if IsMasked(len8) then ST_MASK1 else ST_PAYLOAD;
        }
      } else if wsStatus <= ST_LEN8 {
        frLen := (frLen * 256 + b) % TWO_TO_THE_64;
        if (Len7(len8) == 126 && wsStatus == ST_LEN2) || wsStatus == ST_LEN8 {
          wsStatus := if IsMasked(len8) then ST_MASK1 else ST_PAYLOAD;
        } else {
          wsStatus := wsStatus + 1;
        }
      } else if wsStatus <= ST_MASK4 {
        mask[wsStatus - ST_MASK1] := b;
        wsStatus := wsStatus + 1;
        assert mask[..] == old(mask[..])[old(wsStatus) - ST_MASK1 := b];
      } else {
        wasHeaderByte := false;
      }
    }

    /** What the header asks for, done with the unmasked payload octets `data[i..i + sl]`. */
    method React(data: array<byte>, i: nat, sl: nat) returns (r: CgiState)
      requires mask.Length == 4 && data != mask
      requires i + 2 <= data.Length && i + sl <= data.Length
      requires outcome.Open? && echo == [] && wsStatus == ST_PAYLOAD && View().Shape()
      requires frameCont ==> View().Valid()
      modifies this`sent, this`closedHere, this`outcome, this`calls, this`echo
      ensures View() == Reaction(old(View()), data[i..i + sl])
      ensures r == if outcome.Open? then More else Done
      ensures outcome.Open? ==> echo == [] && closedHere == old(closedHere)
      ensures outcome.PeerClosed? ==> echo == if old(closedHere) then [] else data[i..i + 2]
    {
      r := More;
      ghost var s0, plain := View(), data[i..i + sl];
      if Opcode(flags) == OPCODE_PING {
        if frLen > 125 {
          if !frameCont {
            Close(1002, false);
          }
          outcome := ProtocolError;
          r := Done;
        } else {
          if !frameCont {
            SendFrameHead(OPCODE_PONG + FLAG_FIN, frLen);
          }
          if sl > 0 {
            HttpdSend(data[i..i + sl]);
          }
        }
      } else if IsData(flags) {
        if !IsMasked(len8) {
          Close(1002, false);
          outcome := ProtocolError;
          r := Done;
        } else {
          JoinedAppend(calls, Call(!frameCont, plain, RecvFlags(flags)));
          RecvCb(data[i..i + sl], RecvFlags(flags));
        }
      } else if Opcode(flags) == OPCODE_CLOSE {
        if !closedHere {
          var high: int := data[i];
          Close(high * 256 + data[i + 1], true);
        }
        outcome := PeerClosed;
        r := Done;
      }
    }

    /** The end of the loop body, for the payload octets `data[i..]` of the current frame, or as
        many of them as this buffer holds. */
    method Payload(data: array<byte>, i: nat, len: nat) returns (sl: nat, r: CgiState)
      requires mask.Length == 4 && data != mask && i <= len && len + 2 <= data.Length
      requires outcome.Open? && echo == [] && wsStatus == ST_PAYLOAD && View().Shape()
      requires frameCont ==> View().Valid()
      requires !frameCont ==> maskCtr == 0
      modifies this, data
      ensures sl == if len - i > old(frLen) then old(frLen) else len - i
      ensures mask.Length == 4
      ensures View() == AtOnce(old(View()), Unmask(old(data[i..i + sl]), old(View().mask), old(View().maskCtr)))
      ensures outcome.Open? ==> echo == [] && closedHere == old(closedHere)
      ensures r == if outcome.Open? then More else Done
      ensures data[i..i + sl] == Unmask(old(data[i..i + sl]), old(View().mask), old(View().maskCtr))
      ensures data[i + sl..] == old(data[i + sl..])
      ensures outcome.PeerClosed? ==> echo == if old(closedHere) then [] else data[i..i + 2]
    {
      hide Unmask, Run, FrameHead, Fail, Joined, Xor, Begin, AppendToLast, Opcode, IsData, Reaction;
      sl := len - i;
      if sl > frLen {
        sl := frLen;
      }
      ghost var s0, run := View(), data[i..i + sl];
      UnmaskInPlace(data, i, sl);
      r := React(data, i, sl);
      if r == Done {
        return;
      }
      frLen := frLen - sl;
      if frLen == 0 {
        wsStatus := ST_FLAGS;
      } else {
        frameCont := true;
      }
    }

    /** The body of the receive loop with its counter at i; `next` is the counter after `i++`. */
    method Iteration(data: array<byte>, i: nat, len: nat) returns (next: nat, r: CgiState)
      requires Valid() && outcome.Open?
      requires data != mask && i < len && len + 2 <= data.Length
      modifies this, mask, data
      ensures i < next <= len
      ensures Valid()
      ensures View() == Run(old(View()), old(data[i..next]))
      ensures r == if outcome.Open? then More else Done
      ensures outcome.Open? ==> closedHere == old(closedHere)
      ensures data[next..] == old(data[next..])
      ensures !outcome.Open? ==> !Step(old(View()), old(data[i])).outcome.Open?
      ensures outcome.PeerClosed? ==>
        echo == if old(closedHere) then [] else CloseEcho(old(data[..]), len, i + 1, View())
    {
      hide Run, Step, CloseEcho, Joined;
      r := More;
      next := i;
      ghost var s1, memory := View(), data[..];
      var wasHeaderByte := HeaderOctet(data[i]);
      if wsStatus == ST_PAYLOAD && wasHeaderByte {
        next := next + 1;
      }
      if wsStatus == ST_PAYLOAD {
        next, r := PayloadIteration(data, next, len, wasHeaderByte, s1, memory[i]);
        assert wasHeaderByte ==> memory[i..next + 1] == [memory[i]] + memory[i + 1..next + 1];
        assert [] + memory[i..next + 1] == memory[i..next + 1];
      } else {
        HeaderOnly(s1, memory[i]);
        assert memory[i..i + 1] == [memory[i]];
      }
      next := next + 1;
    }

    /** The rest of the loop body when octets of the payload are due; `next` is the counter before `i++`. */
    method PayloadIteration(data: array<byte>, i: nat, len: nat, wasHeaderByte: bool, ghost s1: Parser, ghost b: byte)
      returns (next: int, r: CgiState)
      requires mask.Length == 4 && data != mask && i <= len && len + 2 <= data.Length
      requires outcome.Open? && echo == [] && wsStatus == ST_PAYLOAD
      requires s1.Valid() && s1.outcome.Open?
      requires if wasHeaderByte then s1.wsStatus < ST_PAYLOAD && View() == Header(s1, b)
               else s1.wsStatus == ST_PAYLOAD && View() == s1 && i < len
      modifies this, data
      ensures i - 1 <= next < len && (!wasHeaderByte ==> i <= next)
      ensures Valid()
      ensures View() == Run(s1, (if wasHeaderByte then [b] else []) + old(data[i..next + 1]))
      ensures r == if outcome.Open? then More else Done
      ensures outcome.Open? ==> closedHere == old(closedHere)
      ensures data[next + 1..] == old(data[next + 1..])
      ensures !outcome.Open? ==> wasHeaderByte && !Step(s1, b).outcome.Open?
      ensures outcome.PeerClosed? ==>
        echo == if old(closedHere) then [] else CloseEcho(old(data[..]), len, i, View())
    {
      hide Run, Step, Header, Begin, AfterPayload, AtOnce, Reaction, Octets, Unmask, CloseEcho;
      ghost var s2, memory := View(), data[..];
      var sl;
      sl, r := Payload(data, i, len);
      ghost var run := memory[i..i + sl];
      Taken(s2, run);
      if wasHeaderByte {
        HeaderThenPayload(s1, b, run);
        AtOnceClosed(s2, Unmask(run, s2.mask, s2.maskCtr));
        if r == Done {
          EchoFrom(memory, data[..], len, i, s2, View());
        }
      } else {
        PayloadOnly(s1, run);
        assert [] + run == run;
      }
      next := i + sl - 1;
    }

    /** `cgiWebSocketRecv`, on the first `len` bytes of `data`.  It must not be called again once
        it has returned Done.  The two bytes of memory behind the received ones are readable: the
        reply to a close frame copies two bytes from where the payload should start, received or
        not. */
    method Recv(data: array<byte>, len: nat) returns (r: CgiState)
      requires Valid() && outcome.Open?
      requires data != mask && len + 2 <= data.Length
      modifies this, mask, data
      ensures Valid()
      ensures View() == Run(old(View()), old(data[..len]))
      ensures r == if outcome.Open? then More else Done
      ensures outcome.PeerClosed? ==>
        echo == if old(closedHere) then []
                else CloseEcho(old(data[..]), len, ReadUntilClosed(old(View()), old(data[..len])), View())
    {
      hide Run, CloseEcho, ReadUntilClosed, Joined, Step;
      r := More;
      var i := 0;
      ghost var s0, memory := View(), data[..];
      RunNone(s0);
      assert memory[..0] == [] && memory[..len] == old(data[..len]);
      while i < len
        invariant i <= len && r == More && outcome.Open?
        invariant Valid() && closedHere == old(closedHere)
        invariant View() == Run(s0, memory[..i])
        invariant data[i..] == memory[i..]
        decreases len - i
      {
        ghost var i0, current := i, data[..];
        SameSlices(current, memory, i);
        i, r := Iteration(data, i, len);
        RunFurther(s0, memory, i0, i);
        if r == Done {
          RunFurther(s0, memory, i, len);
          RunClosed(View(), memory[i..len]);
          assert memory[..len][..i0] == memory[..i0];
          ClosedAt(s0, memory[..len], i0);
          EchoSame(current, memory, len, i0 + 1, View());
          break;
        }
      }
    }

    /** The application's callback, here as the record of what it was called with. */
    ghost method RecvCb(payload: seq<byte>, recvFlags: nat)
      modifies this`calls
      ensures calls == old(calls) + [Call(!frameCont, payload, recvFlags)]
    {
      calls := calls + [Call(!frameCont, payload, recvFlags)];
    }
  }

  /** A run of payload octets after the header, or in the middle of a frame: first the reaction
      to the header, if that is still due, then the octets. */
  ghost function AfterPayload(s: Parser, run: seq<byte>): Parser
    requires s.Shape() && s.wsStatus == ST_PAYLOAD && s.outcome.Open? && |run| <= s.len
    requires s.frameCont ==> s.Valid()
  {
    var begun := if s.frameCont then s else Begin(s);
    if begun.outcome.Open? && begun.wsStatus == ST_PAYLOAD then Octets(begun, run) else begun
  }

  /** What `React` does with the unmasked octets. */
  ghost function Reaction(s: Parser, plain: seq<byte>): Parser
    requires s.Shape() && s.wsStatus == ST_PAYLOAD && (s.frameCont ==> s.Valid()) && s.outcome.Open?
  {
    if Opcode(s.flags) == OPCODE_PING then
      if s.len > 125 then Fail(s).(maskCtr := 0)
      else if s.frameCont then s.(sent := s.sent + plain)
      else s.(sent := s.sent + FrameHead(OPCODE_PONG + FLAG_FIN, s.len) + plain)
    else if IsData(s.flags) then
      if !IsMasked(s.len8) then Fail(s).(maskCtr := 0)
      else if s.frameCont then s.(delivered := AppendToLast(s.delivered, plain))
      else s.(delivered := s.delivered + [Delivery(plain, RecvFlags(s.flags))])
    else if Opcode(s.flags) == OPCODE_CLOSE then
      s.(maskCtr := 0, closedHere := true, outcome := PeerClosed,
         sent := if s.closedHere then s.sent else s.sent + FrameHead(FLAG_FIN + OPCODE_CLOSE, 2))
    else
      s
  }

  /** The loop body on the payload octets of one buffer: unmask, react, count them off. */
  ghost function AtOnce(s: Parser, plain: seq<byte>): Parser
    requires |plain| <= s.len && s.Shape() && (s.frameCont ==> s.Valid())
    requires s.wsStatus == ST_PAYLOAD && s.outcome.Open?
  {
    var t := Reaction(s.(maskCtr := (s.maskCtr + |plain|) % 256), plain);
    if t.outcome.Open? then EndRun(t.(len := s.len - |plain|)) else t
  }

  lemma AtOnceClosed(s: Parser, plain: seq<byte>)
    requires |plain| <= s.len && s.Shape() && (s.frameCont ==> s.Valid())
    requires s.wsStatus == ST_PAYLOAD && s.outcome.Open?
    ensures var t := AtOnce(s, plain); !t.outcome.Open? ==> t.len == s.len && t.mask == s.mask
  {
  }

  lemma Taken(s: Parser, run: seq<byte>)
    requires s.Shape() && s.wsStatus == ST_PAYLOAD && s.outcome.Open? && |run| <= s.len
    requires s.frameCont ==> s.Valid()
    requires !s.frameCont ==> s.maskCtr == 0
    ensures AfterPayload(s, run) == AtOnce(s, Unmask(run, s.mask, s.maskCtr))
  {
    var plain := Unmask(run, s.mask, s.maskCtr);
    if !s.frameCont {
      if |run| == 0 {
        assert plain == [];
        assert s.sent + FrameHead(OPCODE_PONG + FLAG_FIN, 0) + [] == s.sent + FrameHead(OPCODE_PONG + FLAG_FIN, 0);
      }
      if IsData(s.flags) {
        var empty := Delivery([], RecvFlags(s.flags));
        assert [] + plain == plain;
        assert AppendToLast(s.delivered + [empty], plain) == s.delivered + [empty.(payload := plain)];
      }
    }
  }

  lemma SameSlices<T>(a: seq<T>, b: seq<T>, i: nat)
    requires |a| == |b| && i <= |a| && a[i..] == b[i..]
    ensures forall k :: i <= k <= |a| ==> a[i..k] == b[i..k] && a[k..] == b[k..]
  {
    forall k | i <= k <= |a|
      ensures a[i..k] == b[i..k] && a[k..] == b[k..]
    {
      assert a[i..k] == a[i..][..k - i] && a[k..] == a[i..][k - i..];
    }
  }

  lemma EchoFrom(memory: seq<byte>, after: seq<byte>, len: nat, i: nat, s: Parser, t: Parser)
    requires s.Shape() && t.Valid() && s.maskCtr == 0 && t.len == s.len && t.mask == s.mask
    requires i <= len && len + 2 <= |memory| == |after|
    requires var sl := if len - i > s.len then s.len else len - i;
             after[i..i + sl] == Unmask(memory[i..i + sl], s.mask, 0) && after[i + sl..] == memory[i + sl..]
    ensures after[i..i + 2] == CloseEcho(memory, len, i, t)
  {
    var sl := if len - i > s.len then s.len else len - i;
    var plain := Unmask(memory[i..i + sl], s.mask, 0);
    assert sl > 0 ==> after[i] == plain[0];
    assert sl > 1 ==> after[i + 1] == plain[1];
    assert sl == 0 ==> after[i] == after[i + sl..][0] && after[i + 1] == after[i + sl..][1];
    assert sl == 1 ==> after[i + 1] == after[i + sl..][0];
  }

  lemma EchoSame(a: seq<byte>, b: seq<byte>, len: nat, k: nat, s: Parser)
    requires s.Valid() && k <= len && len + 2 <= |a| == |b| && a[k..] == b[k..]
    ensures CloseEcho(a, len, k, s) == CloseEcho(b, len, k, s)
  {
    assert a[k] == a[k..][0] && a[k + 1] == a[k..][1];
    assert b[k] == b[k..][0] && b[k + 1] == b[k..][1];
  }

  lemma RunNone(s: Parser)
    requires s.Valid()
    ensures Run(s, []) == s
  {
  }

  lemma RunFurther(s: Parser, bs: seq<byte>, i: nat, k: nat)
    requires s.Valid() && i <= k <= |bs|
    ensures Run(s, bs[..k]) == Run(Run(s, bs[..i]), bs[i..k])
  {
    assert bs[..k] == bs[..i] + bs[i..k];
    RunSplit(s, bs[..i], bs[i..k]);
  }

  lemma ClosedAt(s: Parser, bs: seq<byte>, i: nat)
    requires s.Valid() && i < |bs| && Run(s, bs[..i]).outcome.Open?
    requires !Step(Run(s, bs[..i]), bs[i]).outcome.Open?
    ensures ReadUntilClosed(s, bs) == i + 1
  {
    assert bs == bs[..i] + bs[i..];
    ReadUntilClosedSplit(s, bs[..i], bs[i..]);
    assert ReadUntilClosed(Step(Run(s, bs[..i]), bs[i]), bs[i..][1..]) == 0;
  }

  lemma HeaderThenPayload(s: Parser, b: byte, run: seq<byte>)
    requires s.Valid() && s.outcome.Open? && s.wsStatus < ST_PAYLOAD
    requires Header(s, b).wsStatus == ST_PAYLOAD && |run| <= Header(s, b).len
    ensures Run(s, [b] + run) == AfterPayload(Header(s, b), run)
    ensures !AfterPayload(Header(s, b), run).outcome.Open? ==> Step(s, b) == AfterPayload(Header(s, b), run)
  {
    hide Run, Reaction;
    LastHeaderOctet(s, b);
    hide Header, Step;
    var begun := Begin(Header(s, b));
    RunOne(s, b);
    RunSplit(s, [b], run);
    hide Begin;
    if !begun.outcome.Open? {
      RunClosed(begun, run);
    } else if begun.wsStatus == ST_PAYLOAD {
      RunOctets(begun, run);
    } else {
      assert run == [];
      RunNone(begun);
    }
  }

  /** The octet that completes a header, and the reaction that it brings about. */
  lemma LastHeaderOctet(s: Parser, b: byte)
    requires s.Valid() && s.outcome.Open? && s.wsStatus < ST_PAYLOAD && Header(s, b).wsStatus == ST_PAYLOAD
    ensures var h := Header(s, b);
            && h.Shape() && h.outcome.Open? && !h.frameCont && Begin(h).Valid() && Step(s, b) == Begin(h)
            && (Begin(h).outcome.Open? && Begin(h).wsStatus != ST_PAYLOAD ==> h.len == 0)
            && (Begin(h).outcome.Open? && Begin(h).wsStatus == ST_PAYLOAD ==> Begin(h).len == h.len)
  {
  }

  lemma HeaderOnly(s: Parser, b: byte)
    requires s.Valid() && s.outcome.Open? && s.wsStatus < ST_PAYLOAD
    requires Header(s, b).wsStatus < ST_PAYLOAD
    ensures Run(s, [b]) == Header(s, b)
  {
    RunOne(s, b);
  }

  lemma PayloadOnly(s: Parser, run: seq<byte>)
    requires s.Valid() && s.outcome.Open? && s.wsStatus == ST_PAYLOAD && |run| <= s.len
    ensures Run(s, run) == AfterPayload(s, run)
    ensures AfterPayload(s, run).outcome.Open?
  {
    RunOctets(s, run);
  }

  // ---------------------------------------------------------------- whole streams

  /** A connection that is open in the end was open all the time. */
  lemma StillOpen(s: Parser, a: seq<byte>, b: seq<byte>)
    requires s.Valid() && Run(s, a + b).outcome.Open?
    ensures Run(s, a).outcome.Open?
  {
    RunSplit(s, a, b);
    if !Run(s, a).outcome.Open? {
      RunClosed(Run(s, a), b);
    }
  }

  lemma OpenUpTo(s: Parser, pieces: seq<seq<byte>>, k: nat)
    requires s.Valid() && k < |pieces| && Run(s, Flatten(pieces)).outcome.Open?
    ensures Run(s, Flatten(pieces[..k])).outcome.Open?
    ensures Run(Run(s, Flatten(pieces[..k])), pieces[k]) == Run(s, Flatten(pieces[..k + 1]))
  {
    hide Run, Flatten;
    FlattenAt(pieces, k);
    StillOpen(s, Flatten(pieces[..k]), Flatten(pieces[k..]));
    RunSplit(s, Flatten(pieces[..k]), pieces[k]);
  }

  lemma FlattenAt(pieces: seq<seq<byte>>, k: nat)
    requires k < |pieces|
    ensures Flatten(pieces) == Flatten(pieces[..k]) + Flatten(pieces[k..])
    ensures Flatten(pieces[..k + 1]) == Flatten(pieces[..k]) + pieces[k]
  {
    hide Flatten;
    var front, back, p := pieces[..k], pieces[k..], pieces[k];
    assert pieces == front + back;
    assert pieces[..k + 1] == front + [p];
    FlattenSplit(front, back);
    FlattenAppend(front, p);
  }

  /** A fresh connection that receives a stream of acceptable frames, in buffers cut anywhere: the calls
      of `recvCb`, joined frame by frame, are the clear payloads, and the pongs are all that is sent. */
  method ReceiveStream(pieces: seq<seq<byte>>, ghost fs: seq<WebSocketFrames.Frame>) returns (c: Connection)
    requires WebSocketFrames.AllAcceptable(fs) && Flatten(pieces) == WebSocketFrames.Stream(fs)
    ensures c.Valid() && c.View().Ready()
    ensures Joined(c.calls) == WebSocketFrames.Deliveries(fs) && c.sent == WebSocketFrames.Replies(fs)
  {
    hide Run, CloseEcho, ReadUntilClosed, Joined;
    c := new Connection();
    hide WebSocketFrames.Stream, WebSocketFrames.Deliveries, WebSocketFrames.Replies;
    ghost var s := c.View();
    JoinedNothing();
    WebSocketFrames.StreamParsed(s, fs);
    RunNone(s);
    assert Flatten(pieces[..0]) == [];
    for k := 0 to |pieces|
      invariant fresh(c) && fresh(c.mask) && c.Valid()
      invariant c.View() == Run(s, Flatten(pieces[..k]))
    {
      OpenUpTo(s, pieces, k);
      ReceivePiece(c, pieces[k]);
    }
    assert pieces[..|pieces|] == pieces;
    assert [] + WebSocketFrames.Deliveries(fs) == WebSocketFrames.Deliveries(fs);
    assert [] + WebSocketFrames.Replies(fs) == WebSocketFrames.Replies(fs);
  }

  /** One receive call, with the two bytes of memory behind the received ones. */
  method ReceivePiece(c: Connection, piece: seq<byte>)
    requires c.Valid() && c.outcome.Open?
    modifies c, c.mask
    ensures c.Valid() && c.View() == Run(old(c.View()), piece)
  {
    hide Run, CloseEcho, ReadUntilClosed, Joined;
    var data := new byte[|piece| + 2](_ => 0);
    for k := 0 to |piece|
      modifies data
      invariant data[..k] == piece[..k]
    {
      data[k] := piece[k];
    }
    assert data[..|piece|] == piece;
    var r := c.Recv(data, |piece|);
  }

  lemma JoinedNothing()
    ensures Joined([]) == []
  {
  }
}
