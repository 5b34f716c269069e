/**
 The server's chunked responses, read back by the client's decoder.
 */
module ChunkedRoundTrip {
  import opened Bytes
  import opened Strtol
  import opened HttpdSpec
  import opened HttpdRuns
  import opened HttpdChunks
  import opened HttpdResponse
  import opened ChunkedDecode

  function AsChunk(d: seq<byte>): Chunk { Chunk(HexFour(|d|), [], d) }

  function AsChunks(ds: seq<seq<byte>>): seq<Chunk> {
    if ds == [] then [] else [AsChunk(ds[0])] + AsChunks(ds[1..])
  }

  lemma NibbleValue(val: int)
    ensures DigitValue(HexNibble(val)) == val % 16
  {
  }

  /** The four patched digits say the size of the chunk. */
  lemma HexFourValue(n: nat)
    requires n < 0x1_0000
    ensures Value(HexFour(n), 16) == n
    ensures forall k :: 0 <= k < 4 ==> DigitValue(HexFour(n)[k]) < 16
  {
    var a, b, c, d := HexNibble(n / 4096), HexNibble(n / 256), HexNibble(n / 16), HexNibble(n);
    NibbleValue(n / 4096);
    NibbleValue(n / 256);
    NibbleValue(n / 16);
    NibbleValue(n);
    FourDigits(n);
    hide HexNibble;
    ValueOfFour(a, b, c, d);
    hide DigitValue;
  }

  lemma FourDigits(n: nat)
    requires n < 0x1_0000
    ensures ((n / 4096 % 16 * 16 + n / 256 % 16) * 16 + n / 16 % 16) * 16 + n % 16 == n
  {
    assert n / 16 / 16 == n / 256 && n / 256 / 16 == n / 4096;
  }

  lemma ValueOfFour(a: byte, b: byte, c: byte, d: byte)
    ensures Value([a, b, c, d], 16)
         == ((DigitValue(a) * 16 + DigitValue(b)) * 16 + DigitValue(c)) * 16 + DigitValue(d)
  {
    hide DigitValue;
    ValueNone(16);
    ValueAppend([], a, 16);
    ValueAppend([a], b, 16);
    ValueAppend([a, b], c, 16);
    ValueAppend([a, b, c], d, 16);
    assert [] + [a] == [a] && [a] + [b] == [a, b] && [a, b] + [c] == [a, b, c] && [a, b, c] + [d] == [a, b, c, d];
  }

  /** What the server emits is a list of chunks the client's decoder knows, with the same data. */
  lemma {:induction false} ChunksAreWires(ds: seq<seq<byte>>)
    requires Sized(ds)
    ensures AllValid(AsChunks(ds))
    ensures Chunks(ds) == Wires(AsChunks(ds))
    ensures Flatten(ds) == ChunkedDecode.Datas(AsChunks(ds))
  {
    if ds != [] {
      var rest := AsChunks(ds[1..]);
      HexFourValue(|ds[0]|);
      ChunksAreWires(ds[1..]);
      hide HexFour, Value;
      assert AsChunks(ds)[1..] == rest;
      assert HexFour(|ds[0]|) + [] == HexFour(|ds[0]|);
      assert AsChunk(ds[0]).Wire() == ChunkWire(ds[0]);
    }
  }

  lemma LastChunkEnds()
    ensures Ending(LAST_CHUNK + [0])
  {
    hide StrtolValue, StrtolEnd, Value, Clamp;
    var rest: seq<byte> := [13, 10, 13, 10, 0];
    assert rest[4] == 0;
    assert [] + [48] + rest == LAST_CHUNK + [0];
    NumberRead(false, [48], rest, 16);
    ZeroValue();
  }

  lemma ZeroValue()
    ensures Value([48], 16) == 0 && Clamp(0) == 0
  {
    ValueAppend([], 48, 16);
    ValueNone(16);
    assert [] + [48] == [48];
  }

  /** The connection is in state r after a response of which nothing was thrown away. */
  ghost predicate Whole(c: Conn, ops: seq<Op>, es: seq<Event>, r: Conn) {
    && Inv(c) && !c.closed && c.InBody() && c.hasCgi && c.chunkHdr.None?
    && Response(c, ops, es) && AllTaken(c, ops, es)
    && Possible(DoAll(c, ops), es) && r == Run(DoAll(c, ops), es)
  }

  /** Nothing more is flushed, and in the end nothing is on its way: these bytes were delivered in all. */
  ghost predicate Arrives(r: Conn, later: seq<Event>, bytes: seq<byte>) {
    && r.Valid() && Possible(r, later)
    && Run(r, later).log == r.log && Pending(Run(r, later)) == []
    && bytes == Flatten(Run(r, later).delivered)
  }

  /** The round trip: a chunked response of which nothing was thrown away, delivered to the last byte, and
      decoded in place with the NUL that the client puts behind it. */
  method DecodeResponse(a: array<byte>, size: nat, ghost c: Conn, ghost ops: seq<Op>, ghost es: seq<Event>,
                        ghost r: Conn, ghost later: seq<Event>, ghost bytes: seq<byte>)
    returns (dst: nat)
    requires Whole(c, ops, es, r) && Arrives(r, later, bytes)
    requires size <= a.Length && Stream(c) + c.buff + a[..size] == bytes + [0]
    modifies a
    ensures dst <= size && a[..dst] == Accepted(c, ops, es)
  {
    ghost var ds := WholeStream(c, ops, es, r);
    AllDelivered(r, later, bytes);
    ChunksAreWires(ds);
    LastChunkEnds();
    hide Whole, Arrives, Ending, Accepted, Response, Inv, Stream, Chunks, Wires, ChunkedDecode.Datas;
    SameBody(Stream(c) + c.buff, a[..size], Chunks(ds), LAST_CHUNK, [0]);
    dst := Decode(a, size, AsChunks(ds), LAST_CHUNK + [0]);
  }

  lemma WholeStream(c: Conn, ops: seq<Op>, es: seq<Event>, r: Conn) returns (ds: seq<seq<byte>>)
    requires Whole(c, ops, es, r)
    ensures Inv(r) && Response(c, ops, es) && Sized(ds) && Flatten(ds) == Accepted(c, ops, es)
    ensures Stream(r) == Stream(c) + c.buff + Chunks(ds) + LAST_CHUNK
  {
    hide Response, AllTaken, SafeAll, Possible, DoAll, Run, Accepted, Chunks, Stream, Inv, Flatten;
    ds := ChunkedResponse(c, ops, es);
    assert Stream(c) + (c.buff + Chunks(ds) + LAST_CHUNK) == Stream(c) + c.buff + Chunks(ds) + LAST_CHUNK;
  }

  lemma AllDelivered(r: Conn, later: seq<Event>, bytes: seq<byte>)
    requires Inv(r) && Arrives(r, later, bytes)
    ensures bytes == Stream(r)
  {
    hide Possible, Run, Inv;
    RunKeeps(r, later);
    var s := Run(r, later);
    StreamIsKept(r);
    StreamIsKept(s);
    assert s.delivered + Pending(s) == s.delivered;
  }

  lemma SameBody(base: seq<byte>, body: seq<byte>, chunks: seq<byte>, last: seq<byte>, nul: seq<byte>)
    requires base + body == base + chunks + last + nul
    ensures body == chunks + (last + nul)
  {
    assert body == (base + body)[|base|..];
    assert chunks + (last + nul) == (base + chunks + last + nul)[|base|..];
  }
}
