/**
 Chunks whose sizes are printed hex numbers, in small or capital letters (section 4.1 of RFC 7230), decoded by
 the client.
 */
module ChunkedPrinted {
  import opened Bytes
  import opened Digits
  import Strtol
  import StrtolPrinted
  import ChunkedDecode
  import ChunkedRoundTrip

  /** The size may have zeros in front and an extension behind it. */
  datatype Chunk = Chunk(zeros: nat, style: Style, ext: seq<byte>, data: seq<byte>)

  predicate Proper(c: Chunk) {
    && 0 < |c.data| <= 0x7FFF_FFFF
    && 13 !in c.ext && 0 !in c.ext && (c.ext != [] ==> StrtolPrinted.NoDigit(c.ext[0]))
  }

  function Size(c: Chunk): seq<byte> { seq(c.zeros, _ => 48) + Printed(|c.data|, 16, c.style) }

  function Wire(cs: seq<Chunk>): seq<byte> {
    if cs == [] then []
    else Size(cs[0]) + cs[0].ext + [13, 10] + cs[0].data + [13, 10] + Wire(cs[1..])
  }

  function Data(cs: seq<Chunk>): seq<byte> { if cs == [] then [] else cs[0].data + Data(cs[1..]) }

  function Plain(c: Chunk): ChunkedDecode.Chunk { ChunkedDecode.Chunk(Size(c), c.ext, c.data) }

  function AllPlain(cs: seq<Chunk>): seq<ChunkedDecode.Chunk> {
    if cs == [] then [] else [Plain(cs[0])] + AllPlain(cs[1..])
  }

  lemma PlainValid(c: Chunk)
    requires Proper(c)
    ensures Plain(c).Valid()
  {
    hide Printed, Strtol.Value, Strtol.DigitValue;
    StrtolPrinted.PrintedValue(|c.data|, 16, c.style);
    StrtolPrinted.ZerosInFront(c.zeros, Printed(|c.data|, 16, c.style), 16);
    forall k | 0 <= k < |c.ext|
      ensures c.ext[k] != 13 && c.ext[k] != 0
    {
      assert c.ext[k] in c.ext;
    }
  }

  lemma {:induction false} PlainWires(cs: seq<Chunk>)
    requires forall c <- cs :: Proper(c)
    ensures ChunkedDecode.AllValid(AllPlain(cs))
    ensures ChunkedDecode.Wires(AllPlain(cs)) == Wire(cs) && ChunkedDecode.Datas(AllPlain(cs)) == Data(cs)
  {
    if cs != [] {
      var all, more := AllPlain(cs), AllPlain(cs[1..]);
      assert all[1..] == more;
      PlainValid(cs[0]);
      PlainWires(cs[1..]);
      hide Size;
      assert Plain(cs[0]).Wire() == Size(cs[0]) + cs[0].ext + [13, 10] + cs[0].data + [13, 10];
    }
  }

  /** A body of such chunks and the zero-size chunk, with the NUL of the client behind it: `chunked_decode` leaves
      exactly the data at the start of the buffer. */
  method DecodePrinted(chunked: array<byte>, size: nat, ghost cs: seq<Chunk>) returns (dst: nat)
    requires forall c <- cs :: Proper(c)
    requires size <= chunked.Length && chunked[..size] == Wire(cs) + [48, 13, 10, 13, 10, 0]
    modifies chunked
    ensures dst <= size && chunked[..dst] == Data(cs)
    ensures chunked[size..] == old(chunked[size..])
  {
    PlainWires(cs);
    ChunkedRoundTrip.LastChunkEnds();
    ghost var last: seq<byte> := [48, 13, 10, 13, 10, 0];
    assert last == [48, 13, 10, 13, 10] + [0];
    hide Wire, Data, AllPlain, ChunkedDecode.Wires, ChunkedDecode.Datas, ChunkedDecode.AllValid, ChunkedDecode.Ending;
    dst := ChunkedDecode.Decode(chunked, size, AllPlain(cs), last);
  }
}
