/**
 A whole chunked response over the events of a connection, and what of it reaches the client: the
 flushed buffers that the backlog took.
 */
module HttpdResponse {
  import opened Bytes
  import opened Wrappers
  import opened HttpdSpec
  import opened HttpdRuns
  import opened HttpdChunks

  // ---------------------------------------------------------------- responses as events

  /** What a CGI function does while it produces a body. */
  predicate AllBody(ops: seq<Op>) { forall op <- ops :: op.SendOp? || op.FlushOp? }

  /** The rest of an event in which the body goes on, up to the flush that ends every event. */
  predicate GoesOn(ops: seq<Op>) { ops != [] && ops[|ops| - 1] == FlushOp && AllBody(ops) }

  /** The rest of the event in which the CGI function is done. */
  predicate Concludes(ops: seq<Op>) {
    |ops| >= 2 && ops[|ops| - 2..] == [CgiDone, FlushOp] && AllBody(ops[..|ops| - 2])
  }

  /** The state in which an event finds the connection, before it does anything to the send path. */
  function Begin(c: Conn, e: Event): (r: Conn)
    requires c.Valid() && Enabled(c, e)
    ensures r.Valid()
  {
    match e
    case Received(_) => FreshBuffer(c)
    case PacketSent(_, _) =>
      var d := Arrived(c);
      if d.backlog != [] then SendHead(d)
      else if d.disconAfterSent then d.(closed := true)
      else if !d.hasCgi then d
      else FreshBuffer(d)
  }

  /** What is done in an event; an event that does not call the CGI function does not flush either,
      but there is nothing to flush. */
  function Doings(c: Conn, e: Event): seq<Op> {
    if e.Received? || CallsCgi(c) then EventScript(e) else [FlushOp]
  }

  lemma StepIsDoings(c: Conn, e: Event)
    requires c.Valid() && Enabled(c, e) && c.buff == [] && c.hasCgi
    ensures SafeAll(Begin(c, e), Doings(c, e)) && Step(c, e) == DoAll(Begin(c, e), Doings(c, e))
  {
    if e.PacketSent? && !CallsCgi(c) {
      hide SafeAll, DoAll;
      var d := Begin(c, e);
      NoOps(Flush(d));
      FirstOp(d, FlushOp, []);
      assert [FlushOp] + [] == [FlushOp];
    }
  }

  /** From somewhere in an event, with `ops` still to come in it, and then the events `es`: a body is
      sent and flushed, and the last event is the one in which the CGI function is done.  Every flush
      finds room in the buffer for the CR LF of its chunk. */
  predicate Response(c: Conn, ops: seq<Op>, es: seq<Event>)
    requires c.Valid()
    decreases |es|
  {
    && SafeAll(c, ops) && Roomy(c, ops)
    && if es == [] then Concludes(ops) else
         && GoesOn(ops)
         && var d := DoAll(c, ops);
            && Enabled(d, es[0])
            && Response(Begin(d, es[0]), Doings(d, es[0]), es[1..])
  }

  predicate Roomy(c: Conn, ops: seq<Op>)
    requires c.Valid() && SafeAll(c, ops)
    decreases |ops|
  {
    |ops| > 0 ==> (ops[0].FlushOp? ==> RoomForCrLf(c)) && Roomy(Do(c, ops[0]), ops[1..])
  }

  /** The data of the sends that `httpdSend` reported as successful. */
  function AcceptedOps(c: Conn, ops: seq<Op>): seq<byte>
    requires c.Valid() && SafeAll(c, ops)
    decreases |ops|
  {
    if |ops| == 0 then [] else AcceptedOp(c, ops[0]) + AcceptedOps(Do(c, ops[0]), ops[1..])
  }

  function AcceptedOp(c: Conn, op: Op): seq<byte> { if op.SendOp? && Accepts(c, op.data) then op.data else [] }

  function Accepted(c: Conn, ops: seq<Op>, es: seq<Event>): seq<byte>
    requires c.Valid() && Response(c, ops, es)
    decreases |es|
  {
    AcceptedOps(c, ops) + if es == [] then [] else
      var d := DoAll(c, ops);
      Accepted(Begin(d, es[0]), Doings(d, es[0]), es[1..])
  }

  // ---------------------------------------------------------------- nothing thrown away

  /** The flush hands nothing on, or an idle platform takes it, or the backlog has room for it. */
  predicate Takes(c: Conn)
    requires c.Valid()
  {
    var out := Terminate(CloseChunk(c)).buff;
    out == [] || c.inFlight.None? || c.backlogSize + |out| <= MAX_BACKLOG_SIZE
  }

  predicate TakesOp(c: Conn, op: Op)
    requires c.Valid()
  {
    match op
    case FlushOp => Takes(c)
    case CgiDone => c.chunked ==> Takes(c.(hasCgi := false))
    case _ => true
  }

  predicate TakesAll(c: Conn, ops: seq<Op>)
    requires c.Valid() && SafeAll(c, ops)
    decreases |ops|
  {
    |ops| > 0 ==> TakesOp(c, ops[0]) && TakesAll(Do(c, ops[0]), ops[1..])
  }

  /** Every flush of the response, the final one included, is taken. */
  predicate AllTaken(c: Conn, ops: seq<Op>, es: seq<Event>)
    requires c.Valid() && Response(c, ops, es)
    decreases |es|
  {
    && TakesAll(c, ops)
    && (es != [] ==>
          var d := DoAll(c, ops);
          AllTaken(Begin(d, es[0]), Doings(d, es[0]), es[1..]))
  }

  predicate KeptFrom(log: seq<Flushed>, n: nat) { forall i :: n <= i < |log| ==> log[i].kept }

  predicate NonEmptyFrom(log: seq<Flushed>, n: nat) { forall i :: n <= i < |log| ==> log[i].data != [] }

  /** The log after some flushes: more entries, none empty, and all of them kept or not. */
  predicate Grown(a: seq<Flushed>, b: seq<Flushed>, all: bool) {
    && |a| <= |b| && b[..|a|] == a
    && NonEmptyFrom(b, |a|)
    && (all <==> KeptFrom(b, |a|))
  }

  lemma GrownTwice(a: seq<Flushed>, b: seq<Flushed>, c: seq<Flushed>, ab: bool, bc: bool)
    requires Grown(a, b, ab) && Grown(b, c, bc)
    ensures Grown(a, c, ab && bc)
  {
    assert c[..|a|] == c[..|b|][..|a|];
    forall i | 0 <= i < |b|
      ensures c[i] == b[i]
    {
      assert c[i] == c[..|b|][i];
    }
    KeptTwice(b, c, |a|);
    assert NonEmptyFrom(c, |a|) by {
      forall i | |a| <= i < |c|
        ensures c[i].data != []
      {
        if i < |b| {
          assert c[i] == b[i];
        }
      }
    }
  }

  lemma KeptTwice(b: seq<Flushed>, c: seq<Flushed>, n: nat)
    requires n <= |b| <= |c| && forall i :: 0 <= i < |b| ==> c[i] == b[i]
    ensures KeptFrom(c, n) <==> KeptFrom(b, n) && KeptFrom(c, |b|)
  {
    if KeptFrom(c, n) {
      forall i | n <= i < |b|
        ensures b[i].kept
      {
        assert c[i] == b[i];
      }
    }
    if KeptFrom(b, n) && KeptFrom(c, |b|) {
      forall i | n <= i < |c|
        ensures c[i].kept
      {
        if i < |b| {
          assert c[i] == b[i];
        }
      }
    }
  }

  lemma FlushGrows(c: Conn)
    requires c.Valid() && TerminatorFits(c)
    ensures Grown(c.log, Flush(c).log, Takes(c))
  {
    hide CloseChunk, Terminate, Grown;
    var out := Terminate(CloseChunk(c)).buff;
    GrownNone(c.log);
    if out != [] {
      GrownOne(c.log, Flushed(out, true));
      GrownOne(c.log, Flushed(out, false));
    }
  }

  lemma GrownNone(log: seq<Flushed>)
    ensures Grown(log, log, true)
  {
  }

  lemma GrownOne(log: seq<Flushed>, f: Flushed)
    requires f.data != []
    ensures Grown(log, log + [f], f.kept)
  {
    assert (log + [f])[|log|] == f;
  }

  lemma OpGrows(c: Conn, op: Op)
    requires c.Valid() && Safe(c, op)
    ensures Grown(c.log, Do(c, op).log, TakesOp(c, op))
  {
    hide Flush, Takes, Grown;
    GrownNone(c.log);
    match op
    case FlushOp => FlushGrows(c);
    case CgiDone =>
      if c.chunked {
        FlushGrows(c.(hasCgi := false));
      }
    case _ =>
  }

  lemma {:induction false} OpsGrow(c: Conn, ops: seq<Op>)
    requires c.Valid() && SafeAll(c, ops)
    ensures Grown(c.log, DoAll(c, ops).log, TakesAll(c, ops))
    decreases |ops|
  {
    if |ops| > 0 {
      OpGrows(c, ops[0]);
      OpsGrow(Do(c, ops[0]), ops[1..]);
      hide Grown, Do, TakesOp;
      GrownTwice(c.log, Do(c, ops[0]).log, DoAll(c, ops).log, TakesOp(c, ops[0]), TakesAll(Do(c, ops[0]), ops[1..]));
    }
  }

  /** The kept part of what was flushed is all of it exactly when every buffer was kept. */
  lemma KeptIsAll(a: seq<Flushed>, b: seq<Flushed>, all: bool, x: seq<byte>)
    requires Grown(a, b, all) && Datas(b) == Datas(a) + x
    ensures Flatten(Kept(b)) == Flatten(Kept(a)) + x <==> all
  {
    var more := b[|a|..];
    assert b == a + more;
    DatasSplit(a, more);
    KeptSplit(a, more);
    FlattenSplit(Kept(a), Kept(more));
    Cancel(Datas(a), Datas(more), x);
    Cancel(Flatten(Kept(a)), Flatten(Kept(more)), x);
    hide Datas, Kept, Flatten;
    assert forall i :: 0 <= i < |more| ==> more[i] == b[|a| + i];
    KeptShorter(more);
    KeptLater(a, more);
  }

  lemma Cancel(a: seq<byte>, x: seq<byte>, y: seq<byte>)
    ensures a + x == a + y <==> x == y
  {
    assert (a + x)[|a|..] == x && (a + y)[|a|..] == y;
  }

  lemma KeptLater(a: seq<Flushed>, more: seq<Flushed>)
    ensures KeptFrom(a + more, |a|) <==> KeptFrom(more, 0)
  {
    var b := a + more;
    if KeptFrom(b, |a|) {
      forall i | 0 <= i < |more|
        ensures more[i].kept
      {
        assert b[|a| + i] == more[i];
      }
    }
  }

  lemma {:induction false} DatasSplit(a: seq<Flushed>, b: seq<Flushed>)
    ensures Datas(a + b) == Datas(a) + Datas(b)
  {
    if a == [] {
      assert a + b == b;
    } else {
      assert (a + b)[1..] == a[1..] + b;
      DatasSplit(a[1..], b);
    }
  }

  lemma {:induction false} KeptSplit(a: seq<Flushed>, b: seq<Flushed>)
    ensures Kept(a + b) == Kept(a) + Kept(b)
  {
    if a == [] {
      assert a + b == b;
    } else {
      assert (a + b)[1..] == a[1..] + b;
      KeptSplit(a[1..], b);
    }
  }

  lemma {:induction false} KeptShorter(log: seq<Flushed>)
    requires NonEmptyFrom(log, 0)
    ensures |Flatten(Kept(log))| <= |Datas(log)|
    ensures KeptFrom(log, 0) ==> Flatten(Kept(log)) == Datas(log)
    ensures !KeptFrom(log, 0) ==> |Flatten(Kept(log))| < |Datas(log)|
  {
    if log != [] {
      var f, rest := log[0], log[1..];
      KeptShorter(rest);
      KeptLater([f], rest);
      assert [f] + rest == log;
      FlattenSplit(if f.kept then [f.data] else [], Kept(rest));
      FlattenOne(f.data);
      assert f.data != [];
    }
  }

  // ---------------------------------------------------------------- the form of the body

  lemma OpInBody(c: Conn, base: seq<byte>, ds: seq<seq<byte>>, open: seq<byte>, op: Op)
    returns (ds': seq<seq<byte>>, open': seq<byte>)
    requires Body(c, base, ds, open) && (op.SendOp? || op.FlushOp?) && (op.FlushOp? ==> RoomForCrLf(c))
    ensures Safe(c, op) && Body(Do(c, op), base, ds', open')
    ensures Flatten(ds') + open' == Flatten(ds) + open + AcceptedOp(c, op)
    ensures op.FlushOp? ==> open' == [] && Do(c, op).buff == []
    ensures Do(c, op).Valid()
  {
    hide Datas, Chunks, CloseChunk, Emit;
    ds', open' := ds, open;
    match op
    case SendOp(data) =>
      if Accepts(c, data) {
        SendInBody(c, base, ds, open, data);
        open' := open + data;
        assert Flatten(ds) + (open + data) == Flatten(ds) + open + data;
      }
    case FlushOp =>
      FlushInBody(c, base, ds, open);
      if open != [] {
        FlattenAppend(ds, open);
        ds', open' := ds + [open], [];
      }
  }

  /** The first of the operations to come. */
  lemma OpsNext(c: Conn, ops: seq<Op>)
    requires c.Valid() && ops != [] && SafeAll(c, ops) && Roomy(c, ops)
    ensures Safe(c, ops[0]) && SafeAll(Do(c, ops[0]), ops[1..]) && Roomy(Do(c, ops[0]), ops[1..])
    ensures ops[0].FlushOp? ==> RoomForCrLf(c)
    ensures DoAll(c, ops) == DoAll(Do(c, ops[0]), ops[1..])
    ensures AcceptedOps(c, ops) == AcceptedOp(c, ops[0]) + AcceptedOps(Do(c, ops[0]), ops[1..])
  {
  }

  /** The body goes on up to the end of an event. */
  lemma {:induction false} GoesOnInBody(c: Conn, base: seq<byte>, ds: seq<seq<byte>>, open: seq<byte>, ops: seq<Op>)
    returns (ds': seq<seq<byte>>)
    requires Body(c, base, ds, open) && GoesOn(ops) && SafeAll(c, ops) && Roomy(c, ops)
    ensures Body(DoAll(c, ops), base, ds', []) && DoAll(c, ops).buff == []
    ensures Flatten(ds') == Flatten(ds) + open + AcceptedOps(c, ops)
    decreases |ops|
  {
    hide Body, Do, AcceptedOp, SafeAll, DoAll, Roomy, AcceptedOps, Flatten, RoomForCrLf;
    ValidInBody(c, base, ds, open);
    assert ops[0] in ops;
    OpsNext(c, ops);
    var ds1, open1 := OpInBody(c, base, ds, open, ops[0]);
    if |ops| == 1 {
      ds' := ds1;
      assert Flatten(ds1) + [] == Flatten(ds1);
      assert ops[1..] == [];
      NoOps(Do(c, ops[0]));
      NothingAccepted(Do(c, ops[0]));
      Regroup(Flatten(ds), open, AcceptedOp(c, ops[0]), []);
    } else {
      ds' := GoesOnInBody(Do(c, ops[0]), base, ds1, open1, ops[1..]);
      Regroup(Flatten(ds), open, AcceptedOp(c, ops[0]), AcceptedOps(Do(c, ops[0]), ops[1..]));
    }
  }

  lemma NothingAccepted(c: Conn)
    requires c.Valid()
    ensures SafeAll(c, []) && AcceptedOps(c, []) == []
  {
  }

  lemma ValidInBody(c: Conn, base: seq<byte>, ds: seq<seq<byte>>, open: seq<byte>)
    requires Body(c, base, ds, open)
    ensures c.Valid() && c.InBody() && c.hasCgi
  {
  }

  lemma Regroup(a: seq<byte>, b: seq<byte>, x: seq<byte>, y: seq<byte>)
    ensures a + b + x + y == a + b + (x + y)
  {
  }

  /** The body comes to its end within an event. */
  lemma {:induction false} ConcludesInBody(c: Conn, base: seq<byte>, ds: seq<seq<byte>>, open: seq<byte>, ops: seq<Op>)
    returns (ds': seq<seq<byte>>)
    requires Body(c, base, ds, open) && Concludes(ops) && SafeAll(c, ops) && Roomy(c, ops)
    ensures Output(DoAll(c, ops)) == base + Chunks(ds') + LAST_CHUNK && DoAll(c, ops).buff == []
    ensures Sized(ds') && Flatten(ds') == Flatten(ds) + open + AcceptedOps(c, ops)
    decreases |ops|
  {
    hide Body, Do, AcceptedOp, SafeAll, DoAll, Roomy, AcceptedOps, Flatten, RoomForCrLf, Output, Chunks, Sized;
    if |ops| == 2 {
      assert ops == [CgiDone, FlushOp];
      ds' := BodyDone(c, base, ds, open, ops);
    } else {
      ValidInBody(c, base, ds, open);
      assert ops[0] == ops[..|ops| - 2][0] && ops[0] in ops[..|ops| - 2];
      OpsNext(c, ops);
      var ds1, open1 := OpInBody(c, base, ds, open, ops[0]);
      assert ops[1..][..|ops| - 3] == ops[..|ops| - 2][1..];
      ds' := ConcludesInBody(Do(c, ops[0]), base, ds1, open1, ops[1..]);
      Regroup(Flatten(ds), open, AcceptedOp(c, ops[0]), AcceptedOps(Do(c, ops[0]), ops[1..]));
    }
  }

  /** `httpdCgiIsDone` and the flush behind it.  If the terminating chunk fits, so does the CR LF. */
  lemma BodyDone(c: Conn, base: seq<byte>, ds: seq<seq<byte>>, open: seq<byte>, ops: seq<Op>)
    returns (ds': seq<seq<byte>>)
    requires Body(c, base, ds, open) && ops == [CgiDone, FlushOp] && SafeAll(c, ops)
    ensures Output(DoAll(c, ops)) == base + Chunks(ds') + LAST_CHUNK && DoAll(c, ops).buff == []
    ensures Sized(ds') && Flatten(ds') == Flatten(ds) + open + AcceptedOps(c, ops)
  {
    TerminatorRoom(c);
    ds' := DoneInBody(c, base, ds, open);
    FlushAfterDone(c);
    var d := CgiIsDone(c);
    hide Output, Chunks, Body, CgiIsDone, Flush;
    assert ops == [CgiDone] + ([FlushOp] + []);
    NoOps(d);
    FirstOp(d, FlushOp, []);
    FirstOp(c, CgiDone, [FlushOp] + []);
    NoneAccepted(c, ops);
    assert Flatten(ds) + open + [] == Flatten(ds) + open;
  }

  lemma NoneAccepted(c: Conn, ops: seq<Op>)
    requires c.Valid() && ops == [CgiDone, FlushOp] && SafeAll(c, ops)
    ensures AcceptedOps(c, ops) == []
  {
    hide Do;
    assert ops[1..] == [FlushOp] && ops[1..][1..] == [];
    assert AcceptedOps(Do(c, CgiDone), [FlushOp]) == [];
  }

  lemma TerminatorRoom(c: Conn)
    requires c.Valid() && c.InBody() && TerminatorFits(c.(hasCgi := false))
    ensures |c.buff| + (if c.chunkHdr.Some? then |CRLF| else 0) + |LAST_CHUNK| + 1 <= MAX_SENDBUFF_LEN
  {
    hide HexFour;
  }

  /** An event in the middle of a body starts with the body as it was. */
  lemma BeginInBody(c: Conn, base: seq<byte>, ds: seq<seq<byte>>, e: Event)
    requires Body(c, base, ds, []) && c.buff == [] && Enabled(c, e)
    ensures Body(Begin(c, e), base, ds, []) && Begin(c, e).log == c.log
  {
  }

  /** The first event of a response that has more of them. */
  lemma NextEvent(c: Conn, base: seq<byte>, ds: seq<seq<byte>>, open: seq<byte>, ops: seq<Op>, es: seq<Event>)
    returns (ds': seq<seq<byte>>, b: Conn, next: seq<Op>)
    requires Body(c, base, ds, open) && Response(c, ops, es) && es != []
    ensures SafeAll(c, ops) && Enabled(DoAll(c, ops), es[0])
    ensures b == Begin(DoAll(c, ops), es[0]) && next == Doings(DoAll(c, ops), es[0])
    ensures b.Valid() && b.log == DoAll(c, ops).log && DoAll(c, ops).buff == []
    ensures Body(b, base, ds', []) && Response(b, next, es[1..])
    ensures Flatten(ds') == Flatten(ds) + open + AcceptedOps(c, ops)
    ensures Step(DoAll(c, ops), es[0]) == DoAll(b, next)
  {
    var d := DoAll(c, ops);
    b, next := Begin(d, es[0]), Doings(d, es[0]);
    hide DoAll, SafeAll, Roomy, AcceptedOps;
    ds' := GoesOnInBody(c, base, ds, open, ops);
    StepIsDoings(d, es[0]);
    BeginInBody(d, base, ds', es[0]);
  }

  lemma RunOn(d: Conn, es: seq<Event>)
    requires d.Valid() && es != [] && Enabled(d, es[0]) && Possible(Step(d, es[0]), es[1..])
    ensures Possible(d, es) && Run(d, es) == Run(Step(d, es[0]), es[1..])
  {
  }

  /** Every response: what is flushed from now on is what the buffer held, well-formed chunks of just the
      accepted data, and one last chunk. */
  lemma {:induction false} ResponseInBody(c: Conn, base: seq<byte>, ds: seq<seq<byte>>, open: seq<byte>,
                                          ops: seq<Op>, es: seq<Event>)
    returns (ds': seq<seq<byte>>)
    requires Body(c, base, ds, open) && Response(c, ops, es)
    ensures Possible(DoAll(c, ops), es)
    ensures var r := Run(DoAll(c, ops), es); Datas(r.log) == base + Chunks(ds') + LAST_CHUNK && r.buff == []
    ensures Sized(ds') && Flatten(ds') == Flatten(ds) + open + Accepted(c, ops, es)
    decreases |es|
  {
    assert c.Valid();
    hide Datas, Chunks, Flatten, Sized, Body, DoAll, SafeAll, Begin, Doings, Step, Roomy, AcceptedOps;
    hide Response, Accepted, Run, Possible;
    if es == [] {
      ds' := ResponseHere(c, base, ds, open, ops, es);
    } else {
      var ds1, b, next := NextEvent(c, base, ds, open, ops, es);
      AcceptedNext(c, ops, es);
      ds' := ResponseInBody(b, base, ds1, [], next, es[1..]);
      RunOn(DoAll(c, ops), es);
      AcceptedSum(Flatten(ds), open, AcceptedOps(c, ops), Accepted(b, next, es[1..]));
    }
  }

  lemma AcceptedNext(c: Conn, ops: seq<Op>, es: seq<Event>)
    requires c.Valid() && Response(c, ops, es) && es != []
    ensures SafeAll(c, ops) && Enabled(DoAll(c, ops), es[0])
    ensures var b, next := Begin(DoAll(c, ops), es[0]), Doings(DoAll(c, ops), es[0]);
            Response(b, next, es[1..]) && Accepted(c, ops, es) == AcceptedOps(c, ops) + Accepted(b, next, es[1..])
  {
  }

  lemma AcceptedSum(a: seq<byte>, open: seq<byte>, x: seq<byte>, y: seq<byte>)
    ensures (a + open + x) + [] + y == a + open + (x + y)
  {
  }

  lemma ResponseHere(c: Conn, base: seq<byte>, ds: seq<seq<byte>>, open: seq<byte>, ops: seq<Op>, es: seq<Event>)
    returns (ds': seq<seq<byte>>)
    requires Body(c, base, ds, open) && Response(c, ops, es) && es == []
    ensures SafeAll(c, ops) && Possible(DoAll(c, ops), es)
    ensures var r := Run(DoAll(c, ops), es); Datas(r.log) == base + Chunks(ds') + LAST_CHUNK && r.buff == []
    ensures Sized(ds') && Flatten(ds') == Flatten(ds) + open + Accepted(c, ops, es)
  {
    hide Datas, Chunks, Flatten, Sized;
    ds' := ConcludesInBody(c, base, ds, open, ops);
    hide SafeAll, DoAll, Body;
    var r := DoAll(c, ops);
    assert Datas(r.log) + [] == Datas(r.log);
    assert AcceptedOps(c, ops) + [] == AcceptedOps(c, ops);
  }

  /** What the log of a response gained, and whether all of it was kept. */
  lemma {:induction false} ResponseGrows(c: Conn, base: seq<byte>, ds: seq<seq<byte>>, open: seq<byte>,
                                         ops: seq<Op>, es: seq<Event>)
    requires Body(c, base, ds, open) && Response(c, ops, es)
    ensures Possible(DoAll(c, ops), es)
    ensures Grown(c.log, Run(DoAll(c, ops), es).log, AllTaken(c, ops, es))
    decreases |es|
  {
    assert c.Valid();
    hide Body, Grown;
    OpsGrow(c, ops);
    if es != [] {
      var d := DoAll(c, ops);
      var ds1, b, next := NextEvent(c, base, ds, open, ops, es);
      assert AllTaken(c, ops, es) == (TakesAll(c, ops) && AllTaken(b, next, es[1..]));
      hide DoAll, SafeAll, Begin, Doings, Step, Response, TakesAll, AllTaken, Run, Possible;
      ResponseGrows(b, base, ds1, [], next, es[1..]);
      RunOn(d, es);
      GrownTwice(c.log, d.log, Run(d, es).log, TakesAll(c, ops), AllTaken(b, next, es[1..]));
    }
  }

  // ---------------------------------------------------------------- what the client gets

  /** What was delivered, what is in flight and what waits: the bytes that the client gets if nothing
      more is flushed. */
  function Stream(c: Conn): seq<byte> { Flatten(c.delivered + Pending(c)) }

  /** Every chunked response, from the end of its headers to the event in which its CGI function is done,
      over any sends and flushes in any events: what follows the headers for the client is a list of
      non-empty chunks whose sizes fit four hex digits and whose data is exactly what the sends were told
      was accepted, then one last chunk, and nothing, if and only if every flush finds the platform idle
      or room in the backlog. */
  lemma ChunkedResponse(c: Conn, ops: seq<Op>, es: seq<Event>) returns (ds: seq<seq<byte>>)
    requires Inv(c) && !c.closed && c.InBody() && c.hasCgi && c.chunkHdr.None? && Response(c, ops, es)
    ensures Possible(DoAll(c, ops), es) && Inv(Run(DoAll(c, ops), es))
    ensures Sized(ds) && Flatten(ds) == Accepted(c, ops, es)
    ensures Stream(Run(DoAll(c, ops), es)) == Stream(c) + (c.buff + Chunks(ds) + [48, 13, 10, 13, 10])
            <==> AllTaken(c, ops, es)
  {
    ds := ResponseFlushed(c, ops, es);
    hide Response, SafeAll, Possible, Run, DoAll, Grown, Datas, Chunks, Kept, AllTaken, Flatten, Inv;
    var r := Run(DoAll(c, ops), es);
    var x := c.buff + Chunks(ds) + LAST_CHUNK;
    KeptIsAll(c.log, r.log, AllTaken(c, ops, es), x);
    StreamIsKept(c);
    StreamIsKept(r);
  }

  lemma StreamIsKept(c: Conn)
    requires Inv(c)
    ensures Stream(c) == Flatten(Kept(c.log))
  {
  }

  lemma ResponseFlushed(c: Conn, ops: seq<Op>, es: seq<Event>) returns (ds: seq<seq<byte>>)
    requires Inv(c) && !c.closed && c.InBody() && c.hasCgi && c.chunkHdr.None? && Response(c, ops, es)
    ensures SafeAll(c, ops) && Possible(DoAll(c, ops), es)
    ensures Sized(ds) && Flatten(ds) == Accepted(c, ops, es)
    ensures var r := Run(DoAll(c, ops), es);
            && Inv(r)
            && Datas(r.log) == Datas(c.log) + (c.buff + Chunks(ds) + LAST_CHUNK)
            && Grown(c.log, r.log, AllTaken(c, ops, es))
  {
    BodyStarts(c);
    assert SafeAll(c, ops);
    hide Body, Response, SafeAll, Possible, Run, DoAll, Grown, Datas, Chunks, Kept, AllTaken, Accepted, Inv, Output;
    ds := ResponseInBody(c, Output(c), [], [], ops, es);
    ResponseGrows(c, Output(c), [], [], ops, es);
    DoAllKeeps(c, ops);
    RunKeeps(DoAll(c, ops), es);
    FlushedSum(c, Chunks(ds));
    assert Flatten<byte>([]) + [] + Accepted(c, ops, es) == Accepted(c, ops, es);
  }

  lemma FlushedSum(c: Conn, chunks: seq<byte>)
    ensures Output(c) + chunks + LAST_CHUNK == Datas(c.log) + (c.buff + chunks + LAST_CHUNK)
  {
  }

  lemma BodyStarts(c: Conn)
    requires c.Valid() && c.InBody() && c.hasCgi && c.chunkHdr.None?
    ensures Body(c, Output(c), [], [])
  {
    assert Output(c) + [] == Output(c);
  }

  /** The same for a run of whole events: in the first one the headers are finished after `head`. */
  lemma ResponseOfRun(c: Conn, e: Event, head: seq<Op>, ops: seq<Op>, es: seq<Event>) returns (ds: seq<seq<byte>>)
    requires Inv(c) && Enabled(c, e) && (e.Received? || CallsCgi(c))
    requires EventScript(e) == head + ops && SafeAll(Begin(c, e), head)
    requires var b := DoAll(Begin(c, e), head);
             b.InBody() && b.hasCgi && b.chunkHdr.None? && Response(b, ops, es)
    ensures Possible(c, [e] + es)
    ensures var b := DoAll(Begin(c, e), head);
            && Sized(ds) && Flatten(ds) == Accepted(b, ops, es)
            && (Stream(Run(c, [e] + es)) == Stream(b) + (b.buff + Chunks(ds) + [48, 13, 10, 13, 10])
                <==> AllTaken(b, ops, es))
  {
    var b := DoAll(Begin(c, e), head);
    BeginKeeps(c, e);
    assert Step(c, e) == DoAll(Begin(c, e), head + ops);
    assert SafeAll(b, ops);
    hide Inv, Response, SafeAll, DoAll, Begin, Step, Enabled, Accepted, AllTaken, Chunks, Sized, Stream, Flatten;
    DoAllKeeps(Begin(c, e), head);
    DoAllTwice(Begin(c, e), head, ops);
    ds := ChunkedResponse(b, ops, es);
    var all := [e] + es;
    assert all[0] == e && all[1..] == es;
    RunOn(c, all);
  }

  lemma BeginKeeps(c: Conn, e: Event)
    requires Inv(c) && Enabled(c, e) && (e.Received? || CallsCgi(c))
    ensures Inv(Begin(c, e)) && !Begin(c, e).closed
  {
    if e.PacketSent? {
      ArrivedKeeps(c);
      assert Pending(FreshBuffer(Arrived(c))) == Pending(Arrived(c));
    } else {
      assert Pending(FreshBuffer(c)) == Pending(c);
    }
  }

  lemma {:induction false} DoAllTwice(c: Conn, a: seq<Op>, b: seq<Op>)
    requires c.Valid() && SafeAll(c, a) && SafeAll(DoAll(c, a), b)
    ensures SafeAll(c, a + b) && DoAll(c, a + b) == DoAll(DoAll(c, a), b)
    decreases |a|
  {
    if a == [] {
      assert a + b == b;
    } else {
      assert (a + b)[1..] == a[1..] + b;
      DoAllTwice(Do(c, a[0]), a[1..], b);
    }
  }

  // ---------------------------------------------------------------- when nothing can be thrown away

  /** A CGI function that leaves flushing to the server. */
  predicate SendsOnly(ops: seq<Op>) { forall op <- ops :: op.SendOp? }

  /** It is called by the sent callback only. */
  predicate CalledWhenIdle(es: seq<Event>) { forall e <- es :: e.PacketSent? && SendsOnly(e.ops) }

  /** The rest of an event with no flush but those of the server, on an idle connection; or an event in
      which nothing is sent. */
  ghost predicate Quiet(c: Conn, ops: seq<Op>) {
    || (c.inFlight.None? && exists sends: seq<Op>, done: bool :: SendsOnly(sends) && ops == Script(sends, done))
    || (ops == [FlushOp] && c.buff == [] && c.chunkHdr.None?)
  }

  /** On an idle connection one flush is taken. */
  lemma {:induction false} IdleTakes(c: Conn, sends: seq<Op>, done: bool)
    requires c.Valid() && c.InBody() && c.inFlight.None? && SendsOnly(sends) && SafeAll(c, Script(sends, done))
    ensures TakesAll(c, Script(sends, done))
    decreases |sends|
  {
    var ops := Script(sends, done);
    if sends == [] {
      assert ops == if done then [CgiDone, FlushOp] else [FlushOp];
      ServerFlushes(c, ops);
    } else {
      assert ops[0] == sends[0] && sends[0] in sends;
      assert ops[1..] == Script(sends[1..], done);
      IdleTakes(Do(c, ops[0]), sends[1..], done);
    }
  }

  lemma ServerFlushes(c: Conn, ops: seq<Op>)
    requires c.Valid() && c.InBody() && c.inFlight.None? && SafeAll(c, ops)
    requires ops == [FlushOp] || ops == [CgiDone, FlushOp]
    ensures TakesAll(c, ops)
  {
    hide CloseChunk;
    if ops == [FlushOp] {
      hide Flush;
      assert TakesAll(Do(c, FlushOp), ops[1..]);
    } else {
      FlushAfterDone(c);
      var d := CgiIsDone(c);
      assert ops[1..] == [FlushOp];
      assert TakesAll(Do(d, FlushOp), ops[1..][1..]);
    }
  }

  lemma QuietTakes(c: Conn, ops: seq<Op>)
    requires c.Valid() && c.InBody() && c.hasCgi && SafeAll(c, ops) && Quiet(c, ops)
    ensures TakesAll(c, ops)
  {
    if c.inFlight.None? && exists sends: seq<Op>, done: bool :: SendsOnly(sends) && ops == Script(sends, done) {
      var sends: seq<Op>, done: bool :| SendsOnly(sends) && ops == Script(sends, done);
      IdleTakes(c, sends, done);
    } else {
      assert TakesAll(Do(c, FlushOp), ops[1..]);
    }
  }

  /** The event after this one is quiet again. */
  lemma QuietNext(d: Conn, e: Event)
    requires d.Valid() && Enabled(d, e) && d.buff == [] && e.PacketSent? && SendsOnly(e.ops)
    ensures Quiet(Begin(d, e), Doings(d, e))
  {
    if CallsCgi(d) {
      assert Doings(d, e) == Script(e.ops, e.done);
    }
  }

  lemma {:induction false} QuietResponse(c: Conn, base: seq<byte>, ds: seq<seq<byte>>, open: seq<byte>,
                                         ops: seq<Op>, es: seq<Event>)
    requires Body(c, base, ds, open) && Response(c, ops, es) && Quiet(c, ops) && CalledWhenIdle(es)
    ensures AllTaken(c, ops, es)
    decreases |es|
  {
    QuietTakes(c, ops);
    if es != [] {
      var ds1, b, next := NextEvent(c, base, ds, open, ops, es);
      assert es[0] in es;
      hide Body, SafeAll, Begin, Doings, TakesAll, Quiet;
      QuietNext(DoAll(c, ops), es[0]);
      QuietResponse(b, base, ds1, [], next, es[1..]);
    }
  }

  /** A CGI function that sends on an idle connection, whenever the sent callback calls it, and never
      flushes by itself: the whole response is for the client. */
  lemma UnflushedResponse(c: Conn, sends: seq<Op>, done: bool, es: seq<Event>) returns (ds: seq<seq<byte>>)
    requires Inv(c) && !c.closed && c.InBody() && c.hasCgi && c.chunkHdr.None? && c.inFlight.None?
    requires SendsOnly(sends) && CalledWhenIdle(es) && Response(c, Script(sends, done), es)
    ensures var ops := Script(sends, done);
            && Possible(DoAll(c, ops), es)
            && Sized(ds) && Flatten(ds) == Accepted(c, ops, es)
            && Stream(Run(DoAll(c, ops), es)) == Stream(c) + (c.buff + Chunks(ds) + [48, 13, 10, 13, 10])
  {
    var ops := Script(sends, done);
    BodyStarts(c);
    assert Quiet(c, ops);
    hide Body, Response, Quiet, SafeAll, Stream, Run, DoAll, Chunks, Script;
    QuietResponse(c, Output(c), [], [], ops, es);
    ds := ChunkedResponse(c, ops, es);
  }

  // ---------------------------------------------------------------- a response that is cut off

  /** A full buffer of data, flushed. */
  lemma SendAndFlush(c: Conn, d: seq<byte>)
    requires c.InBody() && c.hasCgi && c.chunkHdr.None? && |c.buff| <= 40 && |d| == 2000
    ensures Flush(Send(c, d)) == Emit(c.(buff := c.buff + ChunkWire(d)))
    ensures RoomForCrLf(Send(c, d))
  {
    SendMakesChunk(c, d);
  }

  lemma SendMakesChunk(c: Conn, d: seq<byte>)
    requires c.InBody() && c.chunkHdr.None? && |c.buff| <= 40 && |d| == 2000
    ensures CloseChunk(Send(c, d)) == c.(buff := c.buff + ChunkWire(d)) && RoomForCrLf(Send(c, d))
  {
    hide HexFour, ChunkWire;
    var s := Send(c, d);
    assert s.buff == c.buff + (EMPTY_CHUNK_HEADER + d);
    assert s.buff[|c.buff|..] == EMPTY_CHUNK_HEADER + d && s.buff[..|c.buff|] == c.buff;
    CloseMakesChunk(s, d);
  }

  /** The CGI function sends four pieces of 2000 bytes to a new client and flushes after the first three. */
  function CutOffOps(d: seq<byte>): seq<Op> {
    [SendOp(d), FlushOp] + ([SendOp(d), FlushOp] + ([SendOp(d), FlushOp] + [SendOp(d), CgiDone, FlushOp]))
  }

  /** The connection after one more piece. */
  lemma OnePiece(c: Conn, d: seq<byte>, rest: seq<Op>)
    requires c.InBody() && c.hasCgi && c.chunkHdr.None? && |c.buff| <= 40 && |d| == 2000
    requires var r := Emit(c.(buff := c.buff + ChunkWire(d))); SafeAll(r, rest) && Roomy(r, rest)
    ensures var r := Emit(c.(buff := c.buff + ChunkWire(d)));
            var ops := [SendOp(d), FlushOp] + rest;
            SafeAll(c, ops) && Roomy(c, ops) && DoAll(c, ops) == DoAll(r, rest)
  {
    hide Emit, ChunkWire, CloseChunk;
    SendAndFlush(c, d);
    var s, ops := Send(c, d), [SendOp(d), FlushOp] + rest;
    assert ops[1..][1..] == rest && ops[1..][0] == FlushOp;
    assert Do(s, FlushOp) == Emit(c.(buff := c.buff + ChunkWire(d)));
    assert SafeAll(s, ops[1..]) && Roomy(s, ops[1..]);
  }

  /** The last piece and the end: a packet with the terminating chunk for which the backlog has no room. */
  lemma LastPiece(c: Conn, d: seq<byte>)
    requires c.InBody() && c.hasCgi && c.chunkHdr.None? && c.buff == [] && |d| == 2000
    requires c.inFlight.Some? && c.backlogSize == 4016
    ensures var ops := [SendOp(d), CgiDone, FlushOp];
            && SafeAll(c, ops) && Roomy(c, ops)
            && DoAll(c, ops) == c.(hasCgi := false, chunked := false, sendingBody := false, disconAfterSent := false,
                                   log := c.log + [Flushed(ChunkWire(d) + LAST_CHUNK, false)])
  {
    var s := Send(c, d);
    SendMakesChunk(c, d);
    hide ChunkWire, HexFour;
    assert [] + ChunkWire(d) == ChunkWire(d);
    var w := s.(hasCgi := false);
    CloseIgnoresCgi(s);
    assert CloseChunk(w).buff == ChunkWire(d);
    assert |ChunkWire(d)| == 2008 by {
      WireLength(d);
    }
    hide CloseChunk;
    var r := CgiIsDone(s);
    FlushAfterDone(s);
    hide Send, CgiIsDone, Flush;
    NoOps(r);
    FirstOp(r, FlushOp, []);
    FirstOp(s, CgiDone, [FlushOp] + []);
    FirstOp(c, SendOp(d), [CgiDone] + ([FlushOp] + []));
    assert [SendOp(d), CgiDone, FlushOp] == [SendOp(d)] + ([CgiDone] + ([FlushOp] + []));
    RoomyLast(c, d);
  }

  lemma WireLength(d: seq<byte>)
    ensures |ChunkWire(d)| == |d| + 8
  {
  }

  lemma RoomyLast(c: Conn, d: seq<byte>)
    requires c.Valid() && c.chunked && SafeAll(c, [SendOp(d), CgiDone, FlushOp])
    ensures Roomy(c, [SendOp(d), CgiDone, FlushOp])
  {
    hide Flush, CloseChunk;
    var ops := [SendOp(d), CgiDone, FlushOp];
    var s := Do(c, SendOp(d));
    var r := Do(s, CgiDone);
    assert ops[1..] == [CgiDone, FlushOp] && ops[1..][1..] == [FlushOp] && ops[1..][1..][1..] == [];
    assert Roomy(r, [FlushOp]);
    assert Roomy(s, [CgiDone, FlushOp]);
  }

  /** An instance of a response that is cut off: headers of at most 40 bytes and 8000 bytes of body, with
      room for every CR LF and for the terminating chunk in the send buffer.  The first packet is in
      flight and two fill the backlog; the fourth, with the terminating chunk, is thrown away. */
  lemma CutOffResponse(head: seq<byte>, d: seq<byte>)
    requires 0 < |head| <= 40 && |d| == 2000
    ensures var c, ops := InBodyOf(head), CutOffOps(d);
            && Response(c, ops, []) && !AllTaken(c, ops, [])
            && SafeAll(CONNECTED, RequestOps(head) + ops)
            && Stream(DoAll(CONNECTED, RequestOps(head) + ops)) == head + Chunks([d, d, d])
  {
    var c, ops := InBodyOf(head), CutOffOps(d);
    var r := CutOffRun(head, d);
    hide ChunkWire, SafeAll, DoAll, Roomy, Grown, TakesAll, Stream, Chunks, CutOffOps, RequestOps, Concludes;
    HeadersSent(head, ops);
    CutOffConcludes(d);
    OpsGrow(c, ops);
    Dropped(c.log, r.log, TakesAll(c, ops));
    CutOffStream(head, d, r);
  }

  lemma CutOffRun(head: seq<byte>, d: seq<byte>) returns (r: Conn)
    requires 0 < |head| <= 40 && |d| == 2000
    ensures var c, ops, w := InBodyOf(head), CutOffOps(d), ChunkWire(d);
            && SafeAll(c, ops) && Roomy(c, ops) && r == DoAll(c, ops)
            && r.inFlight == Some(head + w) && r.backlog == [w, w] && r.delivered == []
            && |r.log| == 4 && !r.log[3].kept
  {
    var c, last := InBodyOf(head), [SendOp(d), CgiDone, FlushOp];
    var c1, c2, c3 := ThreePieces(head, d);
    hide ChunkWire, Emit, SafeAll, DoAll, Roomy;
    LastPiece(c3, d);
    OnePiece(c2, d, last);
    OnePiece(c1, d, [SendOp(d), FlushOp] + last);
    OnePiece(c, d, [SendOp(d), FlushOp] + ([SendOp(d), FlushOp] + last));
    r := DoAll(c, CutOffOps(d));
  }

  /** The connection after each of the first three packets. */
  lemma ThreePieces(head: seq<byte>, d: seq<byte>) returns (c1: Conn, c2: Conn, c3: Conn)
    requires 0 < |head| <= 40 && |d| == 2000
    ensures var c, w := InBodyOf(head), ChunkWire(d);
            && c1 == Emit(c.(buff := c.buff + w)) && c2 == Emit(c1.(buff := c1.buff + w))
            && c3 == Emit(c2.(buff := c2.buff + w))
            && c1 == c.(buff := [], inFlight := Some(head + w), log := [Flushed(head + w, true)])
            && c2 == c1.(backlog := [w], backlogSize := 2008, log := c1.log + [Flushed(w, true)])
            && c3 == c2.(backlog := [w, w], backlogSize := 4016, log := c2.log + [Flushed(w, true)])
  {
    var c, w := InBodyOf(head), ChunkWire(d);
    WireLength(d);
    hide ChunkWire;
    assert [] + w == w;
    c1 := Emit(c.(buff := c.buff + w));
    c2 := Emit(c1.(buff := c1.buff + w));
    c3 := Emit(c2.(buff := c2.buff + w));
  }

  lemma CutOffConcludes(d: seq<byte>)
    ensures Concludes(CutOffOps(d))
  {
    var ops := CutOffOps(d);
    assert ops == [SendOp(d), FlushOp, SendOp(d), FlushOp, SendOp(d), FlushOp, SendOp(d), CgiDone, FlushOp];
    assert ops[..7] == [SendOp(d), FlushOp, SendOp(d), FlushOp, SendOp(d), FlushOp, SendOp(d)];
  }

  lemma Dropped(a: seq<Flushed>, b: seq<Flushed>, all: bool)
    requires Grown(a, b, all) && |b| > |a| && !b[|b| - 1].kept
    ensures !all
  {
  }

  lemma CutOffStream(head: seq<byte>, d: seq<byte>, r: Conn)
    requires r.inFlight == Some(head + ChunkWire(d)) && r.backlog == [ChunkWire(d), ChunkWire(d)] && r.delivered == []
    ensures Stream(r) == head + Chunks([d, d, d])
  {
    var w := ChunkWire(d);
    var p := r.delivered + Pending(r);
    assert p == [head + w, w, w] && p[1..] == [w, w] && p[1..][1..] == [w];
    assert [d, d, d][1..] == [d, d] && [d, d][1..] == [d];
    hide ChunkWire;
    assert Flatten([w]) == w + [] && Chunks([d]) == w + [];
    assert Flatten([w, w]) == w + (w + []) && Chunks([d, d]) == w + (w + []);
  }
}
