/**
 `chunked_decode` of `httpclient.c`: the body of a chunked response, decoded where it lies.
 */
module ChunkedDecode {
  import opened Bytes
  import opened Strtol
  import opened HttpdSpec

  /** A chunk on the wire (section 4.1 of RFC 7230): hex digits of the size, an extension perhaps,
      and the data. */
  datatype Chunk = Chunk(size: seq<byte>, ext: seq<byte>, data: seq<byte>)
  {
    predicate Valid() {
      && |size| > 0
      && (forall k :: 0 <= k < |size| ==> DigitValue(size[k]) < 16)
      && Value(size, 16) == |data|
      && 0 < |data| <= LONG_MAX
      && (forall k :: 0 <= k < |ext| ==> ext[k] != 13 && ext[k] != 0)
      && (|ext| > 0 ==> !IsDigit(ext[0]) && !IsAlpha(ext[0]))
    }

    function Wire(): seq<byte> { size + ext + CRLF + data + CRLF }
  }

  predicate AllValid(cs: seq<Chunk>) { forall i :: 0 <= i < |cs| ==> cs[i].Valid() }

  function Wires(cs: seq<Chunk>): seq<byte> {
    if cs == [] then [] else cs[0].Wire() + Wires(cs[1..])
  }

  function Datas(cs: seq<Chunk>): seq<byte> {
    if cs == [] then [] else cs[0].data + Datas(cs[1..])
  }

  /** What may follow the chunks: a C string that does not start with a positive number, such as
      the last chunk with or without trailers, or just the NUL of a truncated body. */
  predicate Ending(rest: seq<byte>) {
    IsCString(rest, 0) && StrtolValue(rest, 16) <= 0
  }

  lemma SizeRead(c: Chunk, rest: seq<byte>)
    requires c.Valid() && IsCString(rest, 0)
    ensures IsCString(c.Wire() + rest, 0) && StrtolValue(c.Wire() + rest, 16) == |c.data|
  {
    hide StrtolValue, Value, IsCString;
    var tail := c.ext + CRLF + c.data + CRLF + rest;
    TailOfSize(c, rest);
    assert [] + c.size + tail == c.Wire() + rest;
    NumberRead(false, c.size, tail, 16);
  }

  lemma TailOfSize(c: Chunk, rest: seq<byte>)
    requires c.Valid() && IsCString(rest, 0)
    ensures var tail := c.ext + CRLF + c.data + CRLF + rest;
            IsCString(tail, 0) && !IsDigit(tail[0]) && !IsAlpha(tail[0])
  {
    var tail := c.ext + CRLF + c.data + CRLF + rest;
    IsCStringAppend(c.ext + CRLF + c.data + CRLF, rest);
    assert tail[0] == if |c.ext| > 0 then c.ext[0] else 13;
  }

  /** The first CR LF of a C string, as `strstr` finds it. */
  predicate FirstCrLf(str: seq<byte>, at: nat) {
    && at + 2 <= |str| && str[at] == 13 && str[at + 1] == 10
    && forall k :: 0 <= k < at ==> str[k] != 0 && !(str[k] == 13 && str[k + 1] == 10)
  }

  method StrstrCrLf(str: seq<byte>, ghost at: nat) returns (pos: nat)
    requires FirstCrLf(str, at)
    ensures pos == at
  {
    pos := 0;
    while !(str[pos] == 13 && str[pos + 1] == 10)
      invariant pos <= at
      decreases at - pos
    {
      pos := pos + 1;
    }
  }

  lemma SizeLineEnds(c: Chunk, rest: seq<byte>)
    requires c.Valid()
    ensures FirstCrLf(c.Wire() + rest, |c.size| + |c.ext|)
  {
    var line := c.size + c.ext;
    var str := c.Wire() + rest;
    assert str == line + (CRLF + c.data + CRLF + rest);
    assert str[|line|] == CRLF[0] && str[|line| + 1] == CRLF[1];
    forall k | 0 <= k < |line|
      ensures str[k] != 0 && str[k] != 13
    {
      assert str[k] == if k < |c.size| then c.size[k] else c.ext[k - |c.size|];
    }
  }

  /** `memmove` within one buffer, downwards. */
  method MoveDown(a: array<byte>, dst: nat, src: nat, n: nat)
    requires dst <= src && src + n <= a.Length
    modifies a
    ensures a[..dst] == old(a[..dst])
    ensures a[dst..dst + n] == old(a[src..src + n])
    ensures a[src + n..] == old(a[src + n..])
  {
    for k := 0 to n
      invariant a[..dst] == old(a[..dst])
      invariant a[dst..dst + k] == old(a[src..src + k])
      invariant a[src + k..] == old(a[src + k..])
    {
      assert a[src + k] == a[src + k..][0];
      a[dst + k] := a[src + k];
      assert a[dst..dst + k + 1] == a[dst..dst + k] + [a[dst + k]];
    }
  }

  /** `chunked_decode`: the decoded size; the decoded data is at the start of the buffer. */
  method Decode(chunked: array<byte>, size: nat, ghost cs: seq<Chunk>, ghost rest: seq<byte>) returns (dst: nat)
    requires size <= chunked.Length
    requires AllValid(cs) && Ending(rest)
    requires chunked[..size] == Wires(cs) + rest
    modifies chunked
    ensures dst <= size && chunked[..dst] == Datas(cs)
    ensures chunked[size..] == old(chunked[size..])
  {
    var src := 0;
    dst := 0;
    ghost var todo := cs;
    assert chunked[..0] + Datas(todo) == Datas(cs);
    assert |rest| > 0;
    hide StrtolValue, IsCString, Datas, Wires;
    while true
      invariant dst <= src < size
      invariant AllValid(todo)
      invariant chunked[src..size] == Wires(todo) + rest
      invariant Datas(cs) == chunked[..dst] + Datas(todo)
      invariant chunked[size..] == old(chunked[size..])
      decreases size - src
    {
      UnreadStart(todo, rest);
      var i, endstr := EspStrtol(chunked[src..size], 16);
      if i <= 0 {
        break;
      }
      ghost var dst0 := dst;
      label before:
      src, dst := OneChunk(chunked, size, src, dst, i, todo[0], Wires(todo[1..]) + rest);
      DatasNext(old@before(chunked[..dst0]), todo);
      todo := todo[1..];
      if src >= size {
        break;
      }
    }
  }

  /** The loop body for a chunk of i bytes; the unread bytes all lie at src and above. */
  method OneChunk(chunked: array<byte>, size: nat, src: nat, dst: nat, i: nat, ghost c: Chunk, ghost after: seq<byte>)
    returns (src': nat, dst': nat)
    requires dst <= src <= size <= chunked.Length
    requires c.Valid() && i == |c.data|
    requires chunked[src..size] == c.Wire() + after
    modifies chunked
    ensures dst' == dst + i <= src' <= size
    ensures chunked[..dst'] == old(chunked[..dst]) + c.data
    ensures chunked[src'..size] == after
    ensures chunked[size..] == old(chunked[size..])
  {
    hide FirstCrLf, Value;
    ghost var line, memory := |c.size| + |c.ext|, chunked[..];
    SizeLineEnds(c, after);
    var eol := StrstrCrLf(chunked[src..size], line);
    src' := src + eol + 2;
    WireParts(c, after);
    assert memory[src..size] == chunked[src..size];
    MoveDown(chunked, dst, src', i);
    Moved(memory, chunked[..], size, src, dst, c, after);
    src' := src' + i + |CRLF|;
    dst' := dst + i;
  }

  /** Where the bytes are after the move: the data behind what was decoded before, and the unread
      bytes behind this chunk untouched. */
  lemma Moved(m: seq<byte>, m': seq<byte>, size: nat, src: nat, dst: nat, c: Chunk, after: seq<byte>)
    requires dst <= src <= size <= |m| == |m'|
    requires m[src..size] == c.Wire() + after
    requires var at := src + |c.size| + |c.ext| + 2;
             var n := |c.data|;
             && at + n <= |m|
             && m'[..dst] == m[..dst] && m'[dst..dst + n] == m[at..at + n] && m'[at + n..] == m[at + n..]
    ensures var at := src + |c.size| + |c.ext| + 2;
            var n := |c.data|;
            && at + n + 2 <= size
            && m'[..dst + n] == m[..dst] + c.data
            && m'[at + n + 2..size] == after
            && m'[size..] == m[size..]
  {
    var line, n := |c.size| + |c.ext|, |c.data|;
    var at := src + line + 2;
    WireParts(c, after);
    assert m[at..at + n] == m[src..size][line + 2..][..n];
    assert m[at + n + 2..size] == m[src..size][line + 2..][n + 2..];
    assert m'[at + n + 2..size] == m'[at + n..][2..size - at - n];
    assert m[at + n + 2..size] == m[at + n..][2..size - at - n];
    assert m'[size..] == m'[at + n..][size - at - n..];
    assert m[size..] == m[at + n..][size - at - n..];
    assert m'[..dst + n] == m'[..dst] + m'[dst..dst + n];
  }

  lemma DatasNext(done: seq<byte>, todo: seq<Chunk>)
    requires |todo| > 0
    ensures done + Datas(todo) == done + todo[0].data + Datas(todo[1..])
  {
  }

  lemma WireParts(c: Chunk, after: seq<byte>)
    ensures var line := |c.size| + |c.ext|;
            var unread := c.Wire() + after;
            && |unread| == line + 2 + |c.data| + 2 + |after|
            && unread[line + 2..][..|c.data|] == c.data
            && unread[line + 2..][|c.data| + 2..] == after
  {
    var unread := c.Wire() + after;
    assert unread[|c.size| + |c.ext| + 2..] == c.data + CRLF + after;
  }

  /** A positive number at the start of the unread bytes is the size of the next chunk. */
  lemma UnreadStart(todo: seq<Chunk>, rest: seq<byte>)
    requires AllValid(todo) && Ending(rest)
    ensures IsCString(Wires(todo) + rest, 0)
    ensures StrtolValue(Wires(todo) + rest, 16) > 0 ==> |todo| > 0
    ensures |todo| > 0 ==> StrtolValue(Wires(todo) + rest, 16) == |todo[0].data|
    ensures |todo| > 0 ==> Wires(todo) + rest == todo[0].Wire() + (Wires(todo[1..]) + rest)
  {
    hide StrtolValue, IsCString;
    if todo == [] {
      assert Wires(todo) + rest == rest;
    } else {
      var after := Wires(todo[1..]) + rest;
      assert Wires(todo) + rest == todo[0].Wire() + after;
      hide Wires;
      IsCStringAppend(Wires(todo[1..]), rest);
      SizeRead(todo[0], after);
    }
  }

  lemma IsCStringAppend(a: seq<byte>, rest: seq<byte>)
    requires IsCString(rest, 0)
    ensures IsCString(a + rest, 0)
  {
    var z :| 0 <= z < |rest| && rest[z] == 0;
    assert (a + rest)[|a| + z] == 0;
  }
}
