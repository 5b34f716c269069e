/**
 What every run of a connection keeps: nothing that was flushed and kept is lost, reordered or
 delivered twice, and a connection is only cut when everything has been delivered.
 */
module HttpdRuns {
  import opened Bytes
  import opened Wrappers
  import opened HttpdSpec

  function Kept(log: seq<Flushed>): seq<seq<byte>> {
    if log == [] then [] else (if log[0].kept then [log[0].data] else []) + Kept(log[1..])
  }

  lemma {:induction false} KeptAppend(log: seq<Flushed>, f: Flushed)
    ensures Kept(log + [f]) == Kept(log) + if f.kept then [f.data] else []
  {
    if log == [] {
      assert (log + [f])[1..] == [];
    } else {
      assert (log + [f])[1..] == log[1..] + [f];
      KeptAppend(log[1..], f);
    }
  }

  function TotalLength(pieces: seq<seq<byte>>): nat {
    if pieces == [] then 0 else |pieces[0]| + TotalLength(pieces[1..])
  }

  lemma {:induction false} TotalLengthAppend(pieces: seq<seq<byte>>, p: seq<byte>)
    ensures TotalLength(pieces + [p]) == TotalLength(pieces) + |p|
  {
    if pieces == [] {
      assert [p][1..] == [];
    } else {
      assert (pieces + [p])[1..] == pieces[1..] + [p];
      TotalLengthAppend(pieces[1..], p);
    }
  }

  /** The packets on their way, oldest first. */
  function Pending(c: Conn): seq<seq<byte>> {
    (if c.inFlight.Some? then [c.inFlight.value] else []) + c.backlog
  }

  predicate Inv(c: Conn) {
    && c.Valid()
    && (c.backlog != [] ==> c.inFlight.Some?)
    && c.backlogSize == TotalLength(c.backlog)
    && c.backlogSize <= MAX_BACKLOG_SIZE
    && Kept(c.log) == c.delivered + Pending(c)
    && (c.closed ==> Pending(c) == [])
  }

  lemma OutputFits(c: Conn)
    requires c.Valid() && TerminatorFits(c)
    ensures Terminate(CloseChunk(c)).Valid()
  {
  }

  lemma EmitKeeps(c: Conn)
    requires Inv(c) && !c.closed && c.chunkHdr.None?
    ensures Inv(Emit(c)) && !Emit(c).closed
  {
    hide Kept, TotalLength;
    var r := Emit(c);
    if c.buff != [] {
      KeptAppend(c.log, Flushed(c.buff, true));
      KeptAppend(c.log, Flushed(c.buff, false));
      TotalLengthAppend(c.backlog, c.buff);
      if c.Idle() {
        assert c.backlog == [];
        assert Pending(c) == [] && Pending(r) == [c.buff];
      } else if c.backlogSize + |c.buff| > MAX_BACKLOG_SIZE {
        assert Pending(r) == Pending(c);
      } else {
        assert Pending(r) == Pending(c) + [c.buff];
        assert c.delivered + Pending(c) + [c.buff] == c.delivered + Pending(r);
      }
    }
  }

  /** The parts of a flush before the buffer leaves touch nothing but the buffer. */
  lemma FlushKeeps(c: Conn)
    requires Inv(c) && !c.closed && TerminatorFits(c)
    ensures Inv(Flush(c)) && !Flush(c).closed
  {
    hide Kept, TotalLength, Emit, CloseChunk, Terminate;
    var d := Terminate(CloseChunk(c));
    OutputFits(c);
    assert Pending(d) == Pending(c);
    EmitKeeps(d);
  }

  lemma DoKeeps(c: Conn, op: Op)
    requires Inv(c) && !c.closed && Safe(c, op)
    ensures Inv(Do(c, op)) && !Do(c, op).closed
  {
    hide Kept, TotalLength, CloseChunk, Terminate, Emit;
    match op
    case FlushOp => FlushKeeps(c);
    case CgiDone =>
      var d := c.(hasCgi := false);
      assert Pending(d) == Pending(c);
      if c.chunked {
        FlushKeeps(d);
        assert Pending(Do(c, op)) == Pending(Flush(d));
      } else {
        assert Pending(Do(c, op)) == Pending(c);
      }
    case _ => assert Pending(Do(c, op)) == Pending(c);
  }

  lemma {:induction false} DoAllKeeps(c: Conn, ops: seq<Op>)
    requires Inv(c) && !c.closed && SafeAll(c, ops)
    ensures Inv(DoAll(c, ops)) && !DoAll(c, ops).closed
    decreases |ops|
  {
    if |ops| > 0 {
      DoKeeps(c, ops[0]);
      DoAllKeeps(Do(c, ops[0]), ops[1..]);
    }
  }

  /** At the sent callback only the backlog is pending. */
  lemma ArrivedKeeps(c: Conn)
    requires Inv(c) && !c.closed && c.inFlight.Some?
    ensures var d := Arrived(c);
            Kept(d.log) == d.delivered + d.backlog && (d.backlog == [] ==> Inv(d))
  {
    hide Kept, TotalLength;
    var d := Arrived(c);
    assert c.delivered + ([c.inFlight.value] + c.backlog) == d.delivered + d.backlog;
    if d.backlog == [] {
      assert Pending(d) == [];
    }
  }

  lemma SendHeadKeeps(c: Conn)
    requires Inv(c) && !c.closed && c.inFlight.Some? && c.backlog != []
    ensures Inv(SendHead(Arrived(c)))
  {
    ArrivedKeeps(c);
    hide Kept;
    var d := Arrived(c);
    assert Pending(SendHead(d)) == d.backlog;
  }

  lemma StepKeeps(c: Conn, e: Event)
    requires Inv(c) && Enabled(c, e)
    ensures Inv(Step(c, e))
  {
    hide Kept, DoAll, SafeAll;
    match e
    case Received(ops) =>
      assert Pending(FreshBuffer(c)) == Pending(c);
      DoAllKeeps(FreshBuffer(c), EventScript(e));
    case PacketSent(ops, done) =>
      var d := Arrived(c);
      ArrivedKeeps(c);
      if d.backlog != [] {
        SendHeadKeeps(c);
      } else if d.disconAfterSent {
        assert Pending(d.(closed := true)) == [];
      } else if d.hasCgi {
        assert Pending(FreshBuffer(d)) == Pending(d);
        DoAllKeeps(FreshBuffer(d), EventScript(e));
      }
  }

  // ---------------------------------------------------------------- runs

  predicate Possible(c: Conn, es: seq<Event>)
    requires c.Valid()
    decreases |es|
  {
    |es| > 0 ==> Enabled(c, es[0]) && Possible(Step(c, es[0]), es[1..])
  }

  function Run(c: Conn, es: seq<Event>): (r: Conn)
    requires c.Valid() && Possible(c, es)
    ensures r.Valid()
    decreases |es|
  {
    if |es| == 0 then c else Run(Step(c, es[0]), es[1..])
  }

  lemma {:induction false} RunKeeps(c: Conn, es: seq<Event>)
    requires Inv(c) && Possible(c, es)
    ensures Inv(Run(c, es))
    decreases |es|
  {
    if |es| > 0 {
      StepKeeps(c, es[0]);
      RunKeeps(Step(c, es[0]), es[1..]);
    }
  }

  /** In every run of a connection: a backlog only behind a packet in flight, its size counted
      right and bounded, and the flushed buffers, but for those thrown away whole, are exactly
      what was delivered, what is in flight and what waits, in this order. */
  lemma NothingLost(es: seq<Event>)
    requires Possible(CONNECTED, es)
    ensures var c := Run(CONNECTED, es);
            && (c.backlog != [] ==> c.inFlight.Some?)
            && c.backlogSize == TotalLength(c.backlog) <= 4096
            && Kept(c.log) == c.delivered + (if c.inFlight.Some? then [c.inFlight.value] else []) + c.backlog
  {
    RunKeeps(CONNECTED, es);
    var c := Run(CONNECTED, es);
    assert c.delivered + Pending(c) == c.delivered + (if c.inFlight.Some? then [c.inFlight.value] else []) + c.backlog;
  }

  /** When the server cuts the connection, nothing waits, nothing is in flight, and every byte
      that was flushed and not thrown away has been delivered. */
  lemma CutOnlyWhenDelivered(es: seq<Event>)
    requires Possible(CONNECTED, es) && Run(CONNECTED, es).closed
    ensures var c := Run(CONNECTED, es);
            && c.backlog == [] && c.inFlight.None?
            && c.delivered == Kept(c.log)
            && Flatten(c.delivered) == Flatten(Kept(c.log))
  {
    RunKeeps(CONNECTED, es);
    var c := Run(CONNECTED, es);
    assert |Pending(c)| == 0;
    assert c.delivered + Pending(c) == c.delivered;
  }

  /** A buffer is thrown away only while a packet is in flight and the backlog has no room for it. */
  lemma DroppedOnlyWhenFull(c: Conn)
    requires Inv(c) && !c.closed && TerminatorFits(c)
    ensures var out := Terminate(CloseChunk(c)).buff;
            var dropped := out != [] && c.inFlight.Some? && TotalLength(c.backlog) + |out| > 4096;
            Kept(Flush(c).log) == Kept(c.log) + if out == [] || dropped then [] else [out]
  {
    hide Kept, TotalLength, CloseChunk, Terminate;
    var d := Terminate(CloseChunk(c));
    KeptAppend(c.log, Flushed(d.buff, true));
    KeptAppend(c.log, Flushed(d.buff, false));
  }
}
