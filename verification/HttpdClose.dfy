/**
 How a connection goes on behind a response: without chunks it is closed as soon as everything has been
 delivered, with chunks it stays open.
 */
module HttpdClose {
  import opened Bytes
  import opened Wrappers
  import opened HttpdSpec
  import opened HttpdRuns
  import opened HttpdChunks
  import opened HttpdResponse

  // ---------------------------------------------------------------- packets going out

  predicate AllSent(es: seq<Event>) { forall e <- es :: e.PacketSent? }

  /** Without a CGI function nothing is added: there are as many sent events as packets on their way, each
      delivers one, and the last one closes the connection if it is marked for it. */
  lemma {:induction false} SentEvents(d: Conn, es: seq<Event>)
    requires Inv(d) && !d.hasCgi && d.chunkHdr.None? && AllSent(es)
    ensures Possible(d, es) <==> |es| <= |Pending(d)|
    ensures Possible(d, es) ==>
              var r := Run(d, es);
              && r.log == d.log && r.delivered == d.delivered + Pending(d)[..|es|]
              && (r.closed <==> d.closed || (d.disconAfterSent && 0 < |es| == |Pending(d)|))
    decreases |es|
  {
    if es != [] {
      assert es[0] in es;
      OnePacket(d, es[0]);
      hide Step, Enabled, Inv, Pending;
      if Pending(d) != [] {
        var p := Pending(d);
        SentEvents(Step(d, es[0]), es[1..]);
        if |es| <= |p| {
          FirstAndMore(d.delivered, p, |es|);
        }
      }
    }
  }

  lemma FirstAndMore(a: seq<seq<byte>>, p: seq<seq<byte>>, n: nat)
    requires 0 < n <= |p|
    ensures a + [p[0]] + p[1..][..n - 1] == a + p[..n]
  {
    assert [p[0]] + p[1..][..n - 1] == p[..n];
  }

  lemma OnePacket(d: Conn, e: Event)
    requires Inv(d) && !d.hasCgi && d.chunkHdr.None? && e.PacketSent?
    ensures Enabled(d, e) <==> Pending(d) != []
    ensures Pending(d) != [] ==>
              var r := Step(d, e);
              && Inv(r) && !r.hasCgi && r.chunkHdr.None? && r.log == d.log
              && r.delivered == d.delivered + [Pending(d)[0]] && Pending(r) == Pending(d)[1..]
              && r.disconAfterSent == d.disconAfterSent
              && (r.closed <==> d.disconAfterSent && |Pending(d)| == 1)
  {
    if Enabled(d, e) {
      StepKeeps(d, e);
    }
    hide Kept, TotalLength;
  }

  // ---------------------------------------------------------------- a response without chunks

  /** A response without chunks under way: `out` is what it has put out so far. */
  predicate Plain(c: Conn, out: seq<byte>) {
    c.Valid() && !c.chunked && c.hasCgi && c.chunkHdr.None? && !c.closed && Output(c) == out
  }

  /** Behind a response: the CGI function is gone, and the connection is marked to be closed or not. */
  predicate Over(c: Conn, close: bool) {
    c.Valid() && !c.chunked && !c.hasCgi && c.chunkHdr.None? && !c.closed && c.disconAfterSent == close
  }

  lemma PlainOp(c: Conn, out: seq<byte>, op: Op)
    requires Plain(c, out) && (op.SendOp? || op.FlushOp?)
    ensures Safe(c, op) && Plain(Do(c, op), out + AcceptedOp(c, op)) && (op.FlushOp? ==> Do(c, op).buff == [])
  {
    hide Datas, Emit;
    match op
    case SendOp(data) =>
      assert Datas(c.log) + (c.buff + data) == Output(c) + data;
    case FlushOp =>
      EmitFields(c);
      EmitOutput(c);
  }

  /** What handing on the buffer does not touch. */
  lemma EmitFields(c: Conn)
    ensures var r := Emit(c); r == c.(buff := [], inFlight := r.inFlight, log := r.log, backlog := r.backlog,
                                        backlogSize := r.backlogSize)
  {
  }

  lemma {:induction false} PlainOps(c: Conn, out: seq<byte>, ops: seq<Op>)
    requires Plain(c, out) && AllBody(ops) && SafeAll(c, ops) && Roomy(c, ops)
    ensures Plain(DoAll(c, ops), out + AcceptedOps(c, ops))
    ensures GoesOn(ops) ==> DoAll(c, ops).buff == []
    decreases |ops|
  {
    assert c.Valid();
    hide Plain, Do, AcceptedOp;
    if ops == [] {
      assert out + [] == out;
    } else {
      assert ops[0] in ops;
      OpsNext(c, ops);
      PlainOp(c, out, ops[0]);
      PlainOps(Do(c, ops[0]), out + AcceptedOp(c, ops[0]), ops[1..]);
      Join(out, AcceptedOp(c, ops[0]), AcceptedOps(Do(c, ops[0]), ops[1..]));
    }
  }

  lemma Join(a: seq<byte>, x: seq<byte>, y: seq<byte>)
    ensures a + x + y == a + (x + y)
  {
  }

  /** The end: the connection is marked to be closed, and the last flush hands on the rest. */
  lemma {:induction false} PlainConcludes(c: Conn, out: seq<byte>, ops: seq<Op>)
    requires Plain(c, out) && Concludes(ops) && SafeAll(c, ops) && Roomy(c, ops)
    ensures var r := DoAll(c, ops); Over(r, true) && r.buff == [] && Output(r) == out + AcceptedOps(c, ops)
    decreases |ops|
  {
    if |ops| == 2 {
      assert ops == [CgiDone] + ([FlushOp] + []);
      PlainDone(c);
      hide Plain;
      NoneAccepted(c, ops);
      assert out + [] == out;
    } else {
      assert c.Valid();
      hide Plain, Do, AcceptedOp, Over, Output;
      assert ops[0] == ops[..|ops| - 2][0] && ops[0] in ops[..|ops| - 2];
      assert ops[1..][..|ops| - 3] == ops[..|ops| - 2][1..];
      OpsNext(c, ops);
      PlainOp(c, out, ops[0]);
      PlainConcludes(Do(c, ops[0]), out + AcceptedOp(c, ops[0]), ops[1..]);
      Join(out, AcceptedOp(c, ops[0]), AcceptedOps(Do(c, ops[0]), ops[1..]));
    }
  }

  lemma PlainDone(c: Conn)
    requires c.Valid() && !c.chunked && c.chunkHdr.None? && !c.closed
    ensures SafeAll(c, [CgiDone] + ([FlushOp] + []))
    ensures var r := DoAll(c, [CgiDone] + ([FlushOp] + [])); Over(r, true) && r.buff == [] && Output(r) == Output(c)
  {
    hide Datas, Emit, SafeAll, DoAll;
    var d := c.(hasCgi := false, disconAfterSent := true);
    assert Do(c, CgiDone) == d && Do(d, FlushOp) == Emit(d);
    EmitFields(d);
    EmitOutput(d);
    NoOps(Emit(d));
    FirstOp(d, FlushOp, []);
    FirstOp(c, CgiDone, [FlushOp] + []);
  }

  lemma {:induction false} OpsKeepClosed(c: Conn, ops: seq<Op>)
    requires c.Valid() && SafeAll(c, ops)
    ensures DoAll(c, ops).closed == c.closed
    decreases |ops|
  {
    if ops != [] {
      OpKeepsClosed(c, ops[0]);
      hide Do, Safe;
      OpsKeepClosed(Do(c, ops[0]), ops[1..]);
    }
  }

  lemma OpKeepsClosed(c: Conn, op: Op)
    requires c.Valid() && Safe(c, op)
    ensures Do(c, op).closed == c.closed
  {
    hide CloseChunk, Emit;
    match op
    case FlushOp => EmitFields(Terminate(CloseChunk(c)));
    case CgiDone => EmitFields(Terminate(CloseChunk(c.(hasCgi := false))));
    case _ =>
  }

  /** No response goes on behind an event that closed the connection. */
  lemma NotClosed(d: Conn, e: Event, es: seq<Event>)
    requires d.Valid() && !d.closed && Enabled(d, e) && Response(Begin(d, e), Doings(d, e), es)
    ensures !Begin(d, e).closed
  {
    hide SafeAll, DoAll, Roomy;
    OpsKeepClosed(Begin(d, e), Doings(d, e));
  }

  lemma PlainNext(c: Conn, out: seq<byte>, ops: seq<Op>, es: seq<Event>)
    requires Plain(c, out) && Response(c, ops, es) && es != []
    ensures SafeAll(c, ops) && Enabled(DoAll(c, ops), es[0])
    ensures var d := DoAll(c, ops);
            var b, next := Begin(d, es[0]), Doings(d, es[0]);
            && Plain(b, out + AcceptedOps(c, ops)) && b.log == d.log && Response(b, next, es[1..])
            && Step(d, es[0]) == DoAll(b, next)
            && Accepted(c, ops, es) == AcceptedOps(c, ops) + Accepted(b, next, es[1..])
            && (AllTaken(c, ops, es) <==> TakesAll(c, ops) && AllTaken(b, next, es[1..]))
  {
    PlainOps(c, out, ops);
    var d := DoAll(c, ops);
    hide DoAll, SafeAll, Roomy, AcceptedOps, TakesAll, Datas;
    StepIsDoings(d, es[0]);
    NotClosed(d, es[0], es[1..]);
  }

  lemma {:induction false} PlainInBody(c: Conn, out: seq<byte>, ops: seq<Op>, es: seq<Event>)
    requires Plain(c, out) && Response(c, ops, es)
    ensures Possible(DoAll(c, ops), es)
    ensures var r := Run(DoAll(c, ops), es);
            && Over(r, true) && Datas(r.log) == out + Accepted(c, ops, es)
            && Grown(c.log, r.log, AllTaken(c, ops, es))
    decreases |es|
  {
    OpsGrow(c, ops);
    hide Plain, Grown, Over, Datas, TakesAll, AcceptedOps, DoAll, SafeAll, Roomy;
    if es == [] {
      PlainConcludes(c, out, ops);
      PlainLast(c, out, ops);
    } else {
      PlainNext(c, out, ops, es);
      var d := DoAll(c, ops);
      var b, next := Begin(d, es[0]), Doings(d, es[0]);
      hide Begin, Doings, Step, Response, AllTaken, Accepted, Run, Possible;
      PlainInBody(b, out + AcceptedOps(c, ops), next, es[1..]);
      RunOn(d, es);
      Join(out, AcceptedOps(c, ops), Accepted(b, next, es[1..]));
      GrownTwice(c.log, d.log, Run(d, es).log, TakesAll(c, ops), AllTaken(b, next, es[1..]));
    }
  }

  lemma PlainLast(c: Conn, out: seq<byte>, ops: seq<Op>)
    requires c.Valid() && Response(c, ops, [])
    requires var r := DoAll(c, ops); r.buff == [] && Output(r) == out + AcceptedOps(c, ops)
    ensures var r := DoAll(c, ops);
            && Run(r, []) == r && Datas(r.log) == out + Accepted(c, ops, [])
            && AllTaken(c, ops, []) == TakesAll(c, ops)
  {
    hide DoAll, SafeAll, Roomy, AcceptedOps, TakesAll, Datas;
    var r := DoAll(c, ops);
    assert Datas(r.log) + [] == Datas(r.log);
    assert AcceptedOps(c, ops) + [] == AcceptedOps(c, ops);
  }

  /** Every response without chunks: the client gets what the buffer held and just the accepted data, if and
      only if every flush is taken; then the connection waits for what is pending, to be closed. */
  lemma PlainResponse(c: Conn, ops: seq<Op>, es: seq<Event>)
    requires Inv(c) && !c.closed && !c.chunked && c.hasCgi && c.chunkHdr.None? && Response(c, ops, es)
    ensures Possible(DoAll(c, ops), es)
    ensures var r := Run(DoAll(c, ops), es);
            && Inv(r) && Over(r, true)
            && (Stream(r) == Stream(c) + (c.buff + Accepted(c, ops, es)) <==> AllTaken(c, ops, es))
  {
    assert SafeAll(c, ops);
    hide Response, SafeAll, Possible, Run, DoAll, Grown, Datas, Kept, AllTaken, Flatten, Inv, Over, Stream;
    PlainInBody(c, Output(c), ops, es);
    DoAllKeeps(c, ops);
    RunKeeps(DoAll(c, ops), es);
    var r := Run(DoAll(c, ops), es);
    Join(Datas(c.log), c.buff, Accepted(c, ops, es));
    KeptIsAll(c.log, r.log, AllTaken(c, ops, es), c.buff + Accepted(c, ops, es));
    StreamIsKept(c);
    StreamIsKept(r);
  }

  /** The connection behind a response of either kind, when packets go out. */
  lemma Drained(d: Conn, close: bool, sent: seq<Event>)
    requires Inv(d) && Over(d, close) && AllSent(sent)
    ensures Possible(d, sent) <==> |sent| <= |Pending(d)|
    ensures Possible(d, sent) ==>
              var r := Run(d, sent);
              && (r.closed <==> close && 0 < |sent| == |Pending(d)|)
              && (|sent| == |Pending(d)| ==> r.delivered == Kept(r.log) && Flatten(r.delivered) == Stream(d))
  {
    SentEvents(d, sent);
    hide Kept, Flatten, Possible, Run;
    assert Pending(d)[..|Pending(d)|] == Pending(d);
  }

  /** A response without chunks, from the event that brings the request to the last packet: exactly as many
      packets go out as are pending behind it, the last of them closes the connection, and by then the client
      has got everything that was flushed and kept. */
  lemma PlainThenClosed(c: Conn, e: Event, head: seq<Op>, ops: seq<Op>, es: seq<Event>, sent: seq<Event>)
    requires Inv(c) && Enabled(c, e) && (e.Received? || CallsCgi(c))
    requires EventScript(e) == head + ops && SafeAll(Begin(c, e), head) && AllSent(sent)
    requires var b := DoAll(Begin(c, e), head); !b.chunked && b.hasCgi && b.chunkHdr.None? && Response(b, ops, es)
    ensures Possible(c, [e] + es)
    ensures var b, d := DoAll(Begin(c, e), head), Run(c, [e] + es);
            && (Stream(d) == Stream(b) + (b.buff + Accepted(b, ops, es)) <==> AllTaken(b, ops, es))
            && (Possible(d, sent) <==> |sent| <= |Pending(d)|)
            && (Possible(d, sent) ==>
                  var r := Run(d, sent);
                  && (r.closed <==> 0 < |sent| == |Pending(d)|)
                  && (|sent| == |Pending(d)| ==> r.delivered == Kept(r.log) && Flatten(r.delivered) == Stream(d)))
  {
    var b := DoAll(Begin(c, e), head);
    BeginKeeps(c, e);
    assert Step(c, e) == DoAll(Begin(c, e), head + ops);
    assert SafeAll(b, ops);
    hide Inv, Response, SafeAll, DoAll, Begin, Step, Enabled, Accepted, AllTaken, Stream, Flatten, Over, Kept, Pending;
    DoAllKeeps(Begin(c, e), head);
    DoAllTwice(Begin(c, e), head, ops);
    PlainResponse(b, ops, es);
    var all := [e] + es;
    assert all[0] == e && all[1..] == es;
    RunOn(c, all);
    hide Run, Possible;
    Drained(Run(c, all), true, sent);
  }

  // ---------------------------------------------------------------- a chunked response

  lemma {:induction false} ChunkedConcludes(c: Conn, ops: seq<Op>)
    requires c.Valid() && c.chunked && !c.closed && Concludes(ops) && SafeAll(c, ops)
    ensures Over(DoAll(c, ops), false)
    decreases |ops|
  {
    if |ops| == 2 {
      assert ops == [CgiDone] + ([FlushOp] + []);
      FlushAfterDone(c);
      var d := CgiIsDone(c);
      assert Over(d, false) by {
        hide CloseChunk, Emit;
        EmitFields(Terminate(CloseChunk(c.(hasCgi := false))));
      }
      hide Over, CgiIsDone, Flush;
      NoOps(d);
      FirstOp(d, FlushOp, []);
      FirstOp(c, CgiDone, [FlushOp] + []);
    } else {
      hide Over;
      assert ops[0] == ops[..|ops| - 2][0] && ops[0] in ops[..|ops| - 2];
      assert ops[1..][..|ops| - 3] == ops[..|ops| - 2][1..];
      StillChunked(c, ops[0]);
      hide Do;
      ChunkedConcludes(Do(c, ops[0]), ops[1..]);
    }
  }

  lemma StillChunked(c: Conn, op: Op)
    requires c.Valid() && Safe(c, op) && (op.SendOp? || op.FlushOp?)
    ensures Do(c, op).chunked == c.chunked && Do(c, op).closed == c.closed
  {
    hide CloseChunk, Emit;
    if op.FlushOp? {
      EmitFields(Terminate(CloseChunk(c)));
    }
  }

  lemma {:induction false} ChunkedEnds(c: Conn, base: seq<byte>, ds: seq<seq<byte>>, open: seq<byte>,
                                       ops: seq<Op>, es: seq<Event>)
    requires Body(c, base, ds, open) && !c.closed && Response(c, ops, es)
    ensures Possible(DoAll(c, ops), es) && Over(Run(DoAll(c, ops), es), false)
    decreases |es|
  {
    hide Over;
    if es == [] {
      ChunkedConcludes(c, ops);
    } else {
      var d := DoAll(c, ops);
      OpsKeepClosed(c, ops);
      var ds1, b, next := NextEvent(c, base, ds, open, ops, es);
      hide Body, DoAll, SafeAll, Roomy, Response;
      NotClosed(d, es[0], es[1..]);
      hide Step, Begin, Doings, Run, Possible;
      ChunkedEnds(b, base, ds1, [], next, es[1..]);
      RunOn(d, es);
    }
  }

  /** Behind a chunked response all that is pending goes out, and the connection is still open. */
  lemma ChunkedStaysOpen(c: Conn, ops: seq<Op>, es: seq<Event>, sent: seq<Event>)
    requires Inv(c) && !c.closed && c.InBody() && c.hasCgi && c.chunkHdr.None? && Response(c, ops, es) && AllSent(sent)
    ensures Possible(DoAll(c, ops), es)
    ensures var d := Run(DoAll(c, ops), es);
            && (Possible(d, sent) <==> |sent| <= |Pending(d)|)
            && (Possible(d, sent) ==>
                  var r := Run(d, sent);
                  !r.closed && (|sent| == |Pending(d)| ==> r.delivered == Kept(r.log)))
  {
    BodyStarts(c);
    assert SafeAll(c, ops);
    hide Body, Response, SafeAll, Possible, Run, DoAll, Kept, Inv, Over, Output, Pending, Flatten;
    ChunkedEnds(c, Output(c), [], [], ops, es);
    DoAllKeeps(c, ops);
    RunKeeps(DoAll(c, ops), es);
    Drained(Run(DoAll(c, ops), es), false, sent);
  }

  // ---------------------------------------------------------------- an instance

  /** The ways to a connection without chunks: a request of HTTP/1.0, one with `Connection: close`, and a CGI
      function that asks for it. */
  predicate WithoutChunks(start: seq<Op>) {
    || start == [Parsed(false), ChooseCgi]
    || start == [Parsed(true), Parsed(false), ChooseCgi]
    || start == [Parsed(true), ChooseCgi, NoTransferEncoding]
  }

  /** A short answer to a new client: headers and data go out in one packet as they are, and when it has
      arrived, the connection is closed. */
  lemma ShortAnswer(start: seq<Op>, head: seq<byte>, data: seq<byte>, done: bool)
    requires WithoutChunks(start) && head != [] && data != [] && |head| + |data| <= 2048
    ensures var es := [Received(start + [SendOp(head), EndHeaders, SendOp(data), CgiDone]), PacketSent([], done)];
            && Possible(CONNECTED, es)
            && Run(CONNECTED, es).closed && Run(CONNECTED, es).delivered == [head + data]
  {
    var e, p := Received(start + [SendOp(head), EndHeaders, SendOp(data), CgiDone]), PacketSent([], done);
    var d := Answered(start, head, data);
    var es := [e, p];
    assert es[0] == e && es[1..] == [p] && es[1..][0] == p && es[1..][1..] == [];
    hide SafeAll, DoAll;
    RunOn(d, [p]);
    RunOn(CONNECTED, es);
  }

  /** The connection behind that event. */
  lemma Answered(start: seq<Op>, head: seq<byte>, data: seq<byte>) returns (d: Conn)
    requires WithoutChunks(start) && head != [] && data != [] && |head| + |data| <= 2048
    ensures var e := Received(start + [SendOp(head), EndHeaders, SendOp(data), CgiDone]);
            Enabled(CONNECTED, e) && d == Step(CONNECTED, e)
    ensures d.inFlight == Some(head + data) && d.backlog == [] && d.delivered == [] && d.disconAfterSent && !d.closed
    ensures d.chunkHdr.None?
  {
    hide SafeAll, DoAll, CgiIsDone, Flush;
    var c := CONNECTED.(hasCgi := true);
    var c1 := c.(buff := head);
    var c2 := c1.(sendingBody := true);
    var c3 := c2.(buff := head + data);
    assert [] + head == head;
    assert Do(c, SendOp(head)) == c1 && Do(c1, EndHeaders) == c2 && Do(c2, SendOp(data)) == c3;
    PlainDone(c3);
    hide Do, Safe, Over;
    var tail := [CgiDone] + ([FlushOp] + []);
    d := DoAll(c3, tail);
    assert Safe(c2, SendOp(data)) && Safe(c1, EndHeaders) && Safe(c, SendOp(head)) by {
      AlwaysSafe(c2, SendOp(data));
      AlwaysSafe(c1, EndHeaders);
      AlwaysSafe(c, SendOp(head));
    }
    FirstOp(c2, SendOp(data), tail);
    FirstOp(c1, EndHeaders, [SendOp(data)] + tail);
    FirstOp(c, SendOp(head), [EndHeaders] + ([SendOp(data)] + tail));
    var rest := [SendOp(head)] + ([EndHeaders] + ([SendOp(data)] + tail));
    Started(start, rest);
    var ops := start + [SendOp(head), EndHeaders, SendOp(data), CgiDone];
    assert Script(ops, false) == start + rest;
    InOnePacket(c3, tail);
  }

  lemma AlwaysSafe(c: Conn, op: Op)
    requires c.Valid() && !op.FlushOp? && !op.CgiDone?
    ensures Safe(c, op)
  {
  }

  lemma InOnePacket(c: Conn, tail: seq<Op>)
    requires c.Valid() && !c.chunked && c.chunkHdr.None? && !c.closed && c.Idle() && c.buff != []
    requires tail == [CgiDone] + ([FlushOp] + []) && SafeAll(c, tail)
    ensures var r := DoAll(c, tail);
            r.inFlight == Some(c.buff) && r.backlog == c.backlog && r.delivered == c.delivered && r.disconAfterSent
    ensures !DoAll(c, tail).closed && DoAll(c, tail).chunkHdr.None?
  {
    hide SafeAll, DoAll;
    var d := c.(hasCgi := false, disconAfterSent := true);
    NoOps(Emit(d));
    FirstOp(d, FlushOp, []);
    FirstOp(c, CgiDone, [FlushOp] + []);
  }

  lemma Started(start: seq<Op>, rest: seq<Op>)
    requires WithoutChunks(start) && SafeAll(CONNECTED.(hasCgi := true), rest)
    ensures SafeAll(CONNECTED, start + rest)
    ensures DoAll(CONNECTED, start + rest) == DoAll(CONNECTED.(hasCgi := true), rest)
  {
    hide SafeAll, DoAll, Safe;
    var c, t := CONNECTED.(hasCgi := true), CONNECTED.(chunked := true);
    if start == [Parsed(false), ChooseCgi] {
      FirstOp(CONNECTED, ChooseCgi, rest);
      FirstOp(CONNECTED, Parsed(false), [ChooseCgi] + rest);
      assert start + rest == [Parsed(false)] + ([ChooseCgi] + rest);
    } else if start == [Parsed(true), Parsed(false), ChooseCgi] {
      FirstOp(CONNECTED, ChooseCgi, rest);
      FirstOp(t, Parsed(false), [ChooseCgi] + rest);
      FirstOp(CONNECTED, Parsed(true), [Parsed(false)] + ([ChooseCgi] + rest));
      assert start + rest == [Parsed(true)] + ([Parsed(false)] + ([ChooseCgi] + rest));
    } else {
      FirstOp(t.(hasCgi := true), NoTransferEncoding, rest);
      FirstOp(t, ChooseCgi, [NoTransferEncoding] + rest);
      FirstOp(CONNECTED, Parsed(true), [ChooseCgi] + ([NoTransferEncoding] + rest));
      assert start + rest == [Parsed(true)] + ([ChooseCgi] + ([NoTransferEncoding] + rest));
    }
  }
}
