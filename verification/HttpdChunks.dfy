/**
 Chunked responses (section 4.1 of RFC 7230): what a CGI function sends between the end of the
 headers and its end comes out as well-formed chunks, however sends, flushes and packets interleave.
 */
module HttpdChunks {
  import opened Bytes
  import opened Wrappers
  import opened HttpdSpec

  function ChunkWire(d: seq<byte>): seq<byte> { HexFour(|d|) + [13, 10] + d + [13, 10] }

  function Chunks(ds: seq<seq<byte>>): seq<byte> {
    if ds == [] then [] else ChunkWire(ds[0]) + Chunks(ds[1..])
  }

  lemma {:induction false} ChunksAppend(ds: seq<seq<byte>>, d: seq<byte>)
    ensures Chunks(ds + [d]) == Chunks(ds) + ChunkWire(d)
  {
    if ds == [] {
      assert (ds + [d])[1..] == [];
    } else {
      assert (ds + [d])[1..] == ds[1..] + [d];
      ChunksAppend(ds[1..], d);
    }
  }

  /** No chunk is empty, and four hex digits hold the size of each. */
  predicate Sized(ds: seq<seq<byte>>) {
    forall i :: 0 <= i < |ds| ==> 0 < |ds[i]| < 0x1_0000
  }

  function Datas(log: seq<Flushed>): seq<byte> {
    if log == [] then [] else log[0].data + Datas(log[1..])
  }

  lemma {:induction false} DatasAppend(log: seq<Flushed>, f: Flushed)
    ensures Datas(log + [f]) == Datas(log) + f.data
  {
    if log == [] {
      assert (log + [f])[1..] == [];
    } else {
      assert (log + [f])[1..] == log[1..] + [f];
      DatasAppend(log[1..], f);
    }
  }

  /** Everything flushed so far, and what is in the buffer. */
  function Output(c: Conn): seq<byte> { Datas(c.log) + c.buff }

  /** A chunked response under way: `base` came before its body, the chunks `ds` are finished and
      `open` is in the chunk that is not. */
  predicate Body(c: Conn, base: seq<byte>, ds: seq<seq<byte>>, open: seq<byte>) {
    && c.Valid()
    && c.InBody() && c.hasCgi
    && Sized(ds)
    && (open == [] <==> c.chunkHdr.None?)
    && (open != [] ==>
          && |c.buff| >= 6 + |open|
          && c.chunkHdr.value == |c.buff| - 6 - |open|
          && c.buff[c.chunkHdr.value..] == EMPTY_CHUNK_HEADER + open
          && Datas(c.log) + c.buff[..c.chunkHdr.value] == base + Chunks(ds))
    && (open == [] ==> Output(c) == base + Chunks(ds))
  }

  /** Room for the CR LF of the open chunk. */
  predicate RoomForCrLf(c: Conn) { c.chunkHdr.Some? ==> |c.buff| + |CRLF| <= MAX_SENDBUFF_LEN }

  lemma SendInBody(c: Conn, base: seq<byte>, ds: seq<seq<byte>>, open: seq<byte>, data: seq<byte>)
    requires Body(c, base, ds, open) && Accepts(c, data)
    ensures Body(Send(c, data), base, ds, open + data)
  {
    hide Datas, Chunks, Sized;
    var r := Send(c, data);
    var p := r.chunkHdr.value;
    if open == [] {
      assert r.buff == c.buff + (EMPTY_CHUNK_HEADER + data);
      assert r.buff[..p] == c.buff && r.buff[p..] == EMPTY_CHUNK_HEADER + data;
      assert open + data == data;
    } else {
      assert r.buff == c.buff + data;
      assert r.buff[..p] == c.buff[..p];
      assert r.buff[p..] == c.buff[p..] + data;
      assert EMPTY_CHUNK_HEADER + open + data == EMPTY_CHUNK_HEADER + (open + data);
    }
  }

  /** The open chunk at the end of the buffer becomes a finished one. */
  lemma CloseMakesChunk(c: Conn, open: seq<byte>)
    requires c.Valid() && c.chunkHdr.Some? && RoomForCrLf(c)
    requires c.chunkHdr.value + 6 + |open| == |c.buff|
    requires c.buff[c.chunkHdr.value..] == EMPTY_CHUNK_HEADER + open
    ensures CloseChunk(c).buff == c.buff[..c.chunkHdr.value] + ChunkWire(open)
  {
    hide HexFour;
    var p := c.chunkHdr.value;
    var full := c.buff + CRLF;
    assert Send(c, CRLF).buff == full;
    assert full[p..] == c.buff[p..] + CRLF;
    assert full[p + 4..] == full[p..][4..];
    assert (EMPTY_CHUNK_HEADER + open + CRLF)[4..] == CRLF + open + CRLF;
  }

  lemma CloseInBody(c: Conn, base: seq<byte>, ds: seq<seq<byte>>, open: seq<byte>)
    requires Body(c, base, ds, open) && open != [] && RoomForCrLf(c)
    ensures Body(CloseChunk(c), base, ds + [open], [])
  {
    hide Datas, ChunkWire, Chunks, CloseChunk;
    CloseMakesChunk(c, open);
    ChunksAppend(ds, open);
    var front := c.buff[..c.chunkHdr.value];
    assert Datas(c.log) + (front + ChunkWire(open)) == Datas(c.log) + front + ChunkWire(open);
    assert base + Chunks(ds) + ChunkWire(open) == base + (Chunks(ds) + ChunkWire(open));
  }

  /** Emitting moves the buffer behind what was flushed before. */
  lemma EmitOutput(c: Conn)
    ensures Output(Emit(c)) == Output(c) && Emit(c).buff == []
  {
    hide Datas;
    assert Datas(c.log) + c.buff + [] == Datas(c.log) + c.buff;
    DatasAppend(c.log, Flushed(c.buff, true));
    DatasAppend(c.log, Flushed(c.buff, false));
  }

  lemma FlushInBody(c: Conn, base: seq<byte>, ds: seq<seq<byte>>, open: seq<byte>)
    requires Body(c, base, ds, open) && RoomForCrLf(c)
    ensures Body(Flush(c), base, if open == [] then ds else ds + [open], [])
  {
    hide Datas, Chunks;
    if open != [] {
      CloseInBody(c, base, ds, open);
    }
    EmitOutput(CloseChunk(c));
  }

  /** Whatever the buffer holds, the flush writes the open chunk as a well-formed chunk exactly
      when the buffer still has room for its CR LF. */
  lemma FlushFramesIffRoom(c: Conn, base: seq<byte>, ds: seq<seq<byte>>, open: seq<byte>)
    requires Body(c, base, ds, open) && open != []
    ensures Output(Flush(c)) == base + Chunks(ds) + ChunkWire(open) <==> |c.buff| + |CRLF| <= MAX_SENDBUFF_LEN
  {
    hide Datas, Chunks, HexFour;
    if RoomForCrLf(c) {
      FlushInBody(c, base, ds, open);
      ChunksAppend(ds, open);
      assert base + (Chunks(ds) + ChunkWire(open)) == base + Chunks(ds) + ChunkWire(open);
    } else {
      var d := CloseChunk(c);
      EmitOutput(d);
      assert |d.buff| == |c.buff|;
      assert |Output(Flush(c))| == |Datas(c.log)| + |c.buff|;
      assert |c.buff| == |c.buff[..c.chunkHdr.value]| + 6 + |open|;
    }
  }

  /** The same in an instance, as a CGI function brings it about: one byte of data behind 2041 bytes of
      headers fills the buffer to 2048 with its chunk header, and the chunk announces 65535 bytes that
      are not there. */
  lemma FullBufferBreaksFraming(head: seq<byte>, b: byte)
    requires |head| == 2041
    ensures var ops := RequestOps(head) + [SendOp([b])];
            && SafeAll(CONNECTED, ops) && Safe(DoAll(CONNECTED, ops), FlushOp)
            && Output(Flush(DoAll(CONNECTED, ops))) == head + [70, 70, 70, 70, 13, 10, b]
  {
    var c := InBodyOf(head);
    var d := Send(c, [b]);
    NoOps(d);
    FirstOp(c, SendOp([b]), []);
    assert [SendOp([b])] + [] == [SendOp([b])];
    HeadersSent(head, [SendOp([b])]);
    hide SafeAll, DoAll, RequestOps;
    assert d.buff == head + EMPTY_CHUNK_HEADER + [b];
    FullChunk(d, head, b);
    EmitOutput(CloseChunk(d));
    assert [] + CloseChunk(d).buff == CloseChunk(d).buff;
  }

  lemma FullChunk(d: Conn, head: seq<byte>, b: byte)
    requires |head| == 2041 && d.buff == head + EMPTY_CHUNK_HEADER + [b] && d.chunkHdr == Some(2041)
    ensures CloseChunk(d).buff == head + [70, 70, 70, 70, 13, 10, b]
  {
    assert Send(d, CRLF) == d;
    assert -1 / 4096 == -1 && -1 / 256 == -1 && -1 / 16 == -1;
    assert HexFour(-1) == [70, 70, 70, 70];
    assert d.buff[..2041] == head && d.buff[2045..] == [13, 10, b];
    assert head + [70, 70, 70, 70] + [13, 10, b] == head + [70, 70, 70, 70, 13, 10, b];
  }

  /** Headers of 2043 bytes leave no room for the terminating chunk and its NUL: `strcpy` writes past
      the end of the buffer when the CGI function is done. */
  lemma NoRoomForTerminator(head: seq<byte>)
    requires |head| == 2043
    ensures SafeAll(CONNECTED, RequestOps(head)) && !Safe(DoAll(CONNECTED, RequestOps(head)), CgiDone)
  {
    NoOps(InBodyOf(head));
    HeadersSent(head, []);
    assert RequestOps(head) + [] == RequestOps(head);
  }

  /** For any headers: the terminating chunk of an empty body fits exactly behind at most 2042 bytes. */
  lemma TerminatorRoomExactly(head: seq<byte>)
    requires 0 < |head| <= 2048
    ensures SafeAll(CONNECTED, RequestOps(head))
    ensures Safe(DoAll(CONNECTED, RequestOps(head)), CgiDone) <==> |head| <= 2042
  {
    NoOps(InBodyOf(head));
    HeadersSent(head, []);
    assert RequestOps(head) + [] == RequestOps(head);
  }

  /** The first things that happen on a new connection: a request is parsed and its headers are sent. */
  function RequestOps(head: seq<byte>): seq<Op> { [Parsed(true), ChooseCgi, SendOp(head), EndHeaders] }

  function InBodyOf(head: seq<byte>): Conn {
    CONNECTED.(hasCgi := true, chunked := true, sendingBody := true, buff := head)
  }

  lemma HeadersSent(head: seq<byte>, more: seq<Op>)
    requires 0 < |head| <= MAX_SENDBUFF_LEN && SafeAll(InBodyOf(head), more)
    ensures SafeAll(CONNECTED, RequestOps(head) + more)
    ensures DoAll(CONNECTED, RequestOps(head) + more) == DoAll(InBodyOf(head), more)
  {
    hide SafeAll, DoAll;
    var c1 := CONNECTED.(chunked := true);
    var c2 := c1.(hasCgi := true);
    var c3 := c2.(buff := head);
    assert [] + head == head;
    assert Send(c2, head) == c3;
    FirstOp(c3, EndHeaders, more);
    FirstOp(c2, SendOp(head), [EndHeaders] + more);
    FirstOp(c1, ChooseCgi, [SendOp(head)] + ([EndHeaders] + more));
    FirstOp(CONNECTED, Parsed(true), [ChooseCgi] + ([SendOp(head)] + ([EndHeaders] + more)));
    assert RequestOps(head) + more == [Parsed(true)] + ([ChooseCgi] + ([SendOp(head)] + ([EndHeaders] + more)));
  }

  lemma NoOps(c: Conn)
    requires c.Valid()
    ensures SafeAll(c, []) && DoAll(c, []) == c
  {
  }

  lemma FirstOp(c: Conn, op: Op, rest: seq<Op>)
    requires c.Valid() && Safe(c, op) && SafeAll(Do(c, op), rest)
    ensures SafeAll(c, [op] + rest) && DoAll(c, [op] + rest) == DoAll(Do(c, op), rest)
  {
    assert ([op] + rest)[1..] == rest;
  }

  // ---------------------------------------------------------------- the end of a body

  lemma DoneInBody(c: Conn, base: seq<byte>, ds: seq<seq<byte>>, open: seq<byte>)
    returns (ds': seq<seq<byte>>)
    requires Body(c, base, ds, open)
    requires |c.buff| + (if c.chunkHdr.Some? then |CRLF| else 0) + |LAST_CHUNK| + 1 <= MAX_SENDBUFF_LEN
    ensures TerminatorFits(c.(hasCgi := false))
    ensures Output(CgiIsDone(c)) == base + Chunks(ds') + LAST_CHUNK
    ensures Sized(ds') && Flatten(ds') == Flatten(ds) + open
  {
    hide Datas, Chunks, CloseChunk, Emit;
    var d := c.(hasCgi := false);
    var closed := c;
    if open == [] {
      ds' := ds;
    } else {
      ds' := ds + [open];
      CloseInBody(c, base, ds, open);
      FlattenAppend(ds, open);
      assert Body(CloseChunk(c), base, ds', []);
      closed := CloseChunk(c);
    }
    CloseIgnoresCgi(c);
    assert Datas(c.log) + closed.buff == base + Chunks(ds');
    var e := Terminate(CloseChunk(d));
    assert e.buff == closed.buff + LAST_CHUNK;
    EmitOutput(e);
    assert Output(e) == Datas(c.log) + closed.buff + LAST_CHUNK;
  }

  lemma CloseIgnoresCgi(c: Conn)
    requires c.Valid()
    ensures CloseChunk(c.(hasCgi := false)).buff == CloseChunk(c).buff
    ensures c.chunkHdr.None? ==> CloseChunk(c) == c
    ensures |CloseChunk(c).buff| <= |c.buff| + if c.chunkHdr.Some? then |CRLF| else 0
  {
    hide HexFour;
    if c.chunkHdr.Some? {
      SendIgnoresCgi(c);
      hide Send;
    }
  }

  lemma SendIgnoresCgi(c: Conn)
    requires c.Valid() && c.chunkHdr.Some?
    ensures Send(c.(hasCgi := false), CRLF).buff == Send(c, CRLF).buff
    ensures |c.buff| <= |Send(c, CRLF).buff| <= |c.buff| + |CRLF|
  {
  }

  /** The flush after `httpdCgiIsDone` adds nothing, and the connection is ready for a request. */
  lemma FlushAfterDone(c: Conn)
    requires c.Valid() && c.chunked && TerminatorFits(c.(hasCgi := false))
    ensures var d := CgiIsDone(c);
            TerminatorFits(d) && Flush(d) == d && !d.chunked && !d.sendingBody && !d.hasCgi && d.buff == []
  {
  }
}
