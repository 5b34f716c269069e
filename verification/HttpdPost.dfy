/**
 The POST part of `httpdRecvCb`: body bytes collected into a buffer of at most MAX_POST bytes, which
 is handed to the CGI function whenever it is full or the body is complete.
 */
module HttpdPost {
  import opened Bytes
  import FlashUploadSpec
  import FlashUploadRuns
  import UpgradeImage
  import NorFlash

  const MAX_POST: nat := 1024

  /** A buffer as the CGI function sees it, with `post->received` at that moment. */
  datatype Piece = Piece(data: seq<byte>, received: nat)

  datatype Post = Post(len: nat, buffSize: nat, buff: seq<byte>, received: nat, pieces: seq<Piece>)
  {
    predicate Valid() {
      && len > 0 && 0 < buffSize <= MAX_POST && buffSize <= len
      && received <= len
      && |buff| < buffSize
    }
  }

  /** The `Content-Length:` header. */
  function Begin(len: nat): (r: Post)
    requires len > 0
    ensures r.Valid()
  {
    Post(len, if len > MAX_POST then MAX_POST else len, [], 0, [])
  }

  /** One byte of the body. */
  function Step(p: Post, b: byte): (r: Post)
    requires p.Valid() && p.received < p.len
    ensures r.Valid() && r.len == p.len && r.received == p.received + 1
  {
    var q := p.(buff := p.buff + [b], received := p.received + 1);
    if |q.buff| >= q.buffSize || q.received == q.len then
      q.(pieces := q.pieces + [Piece(q.buff, q.received)], buff := [])
    else q
  }

  function Run(p: Post, bs: seq<byte>): (r: Post)
    requires p.Valid() && p.received + |bs| <= p.len
    ensures r.Valid() && r.len == p.len && r.received == p.received + |bs|
    decreases |bs|
  {
    if |bs| == 0 then p else Run(Step(p, bs[0]), bs[1..])
  }

  lemma {:induction false} RunSplit(p: Post, a: seq<byte>, b: seq<byte>)
    requires p.Valid() && p.received + |a| + |b| <= p.len
    ensures Run(p, a + b) == Run(Run(p, a), b)
    decreases |a|
  {
    if |a| == 0 {
      assert a + b == b;
    } else {
      assert (a + b)[1..] == a[1..] + b;
      RunSplit(Step(p, a[0]), a[1..], b);
    }
  }

  /** The TCP segments of a body, one after the other. */
  function RunSegments(p: Post, segments: seq<seq<byte>>): (r: Post)
    requires p.Valid() && p.received + |Flatten(segments)| <= p.len
    ensures r.Valid() && r.len == p.len && r.received == p.received + |Flatten(segments)|
    decreases |segments|
  {
    if |segments| == 0 then p
    else RunSegments(Run(p, segments[0]), segments[1..])
  }

  lemma {:induction false} SegmentsIrrelevant(p: Post, segments: seq<seq<byte>>)
    requires p.Valid() && p.received + |Flatten(segments)| <= p.len
    ensures RunSegments(p, segments) == Run(p, Flatten(segments))
    decreases |segments|
  {
    if |segments| > 0 {
      RunSplit(p, segments[0], Flatten(segments[1..]));
      SegmentsIrrelevant(Run(p, segments[0]), segments[1..]);
    }
  }

  // ---------------------------------------------------------------- what the CGI function gets

  function DataOf(pieces: seq<Piece>): seq<seq<byte>> {
    seq(|pieces|, i requires 0 <= i < |pieces| => pieces[i].data)
  }

  lemma DataOfAppend(pieces: seq<Piece>, q: Piece)
    ensures DataOf(pieces + [q]) == DataOf(pieces) + [q.data]
  {
  }

  /** `received` counts what was handed over up to and with each piece. */
  predicate Counted(pieces: seq<Piece>) {
    pieces == [] ||
      (pieces[|pieces| - 1].received == |Flatten(DataOf(pieces))| && Counted(pieces[..|pieces| - 1]))
  }

  /** The pieces so far, and the buffer, are the bytes that came in; the pieces are full buffers,
      but for the one that completes the body, and only that one sees all of the body received. */
  predicate Collected(p: Post, fed: seq<byte>) {
    && p.Valid()
    && p.received == |fed|
    && Flatten(DataOf(p.pieces)) + p.buff == fed
    && Counted(p.pieces)
    && (p.received == p.len ==> p.buff == [])
    && (forall i :: 0 <= i < |p.pieces| ==>
          && 0 < |p.pieces[i].data| <= p.buffSize
          && (p.pieces[i].received < p.len ==> |p.pieces[i].data| == p.buffSize)
          && (p.pieces[i].received == p.len <==> i == |p.pieces| - 1 && p.received == p.len))
  }

  lemma StepCollects(p: Post, fed: seq<byte>, b: byte)
    requires Collected(p, fed) && p.received < p.len
    ensures Collected(Step(p, b), fed + [b])
  {
    var q := Piece(p.buff + [b], p.received + 1);
    var all := p.pieces + [q];
    assert Flatten(DataOf(p.pieces)) + p.buff + [b] == Flatten(DataOf(p.pieces)) + (p.buff + [b]);
    if |q.data| >= p.buffSize || q.received == p.len {
      DataOfAppend(p.pieces, q);
      FlattenAppend(DataOf(p.pieces), q.data);
      assert all[..|p.pieces|] == p.pieces;
      assert fed + [b] + [] == fed + [b];
    }
  }

  lemma {:induction false} RunCollects(p: Post, fed: seq<byte>, bs: seq<byte>)
    requires Collected(p, fed) && p.received + |bs| <= p.len
    ensures Collected(Run(p, bs), fed + bs) && Run(p, bs).buffSize == p.buffSize
    decreases |bs|
  {
    hide Flatten, Counted, DataOf;
    if |bs| == 0 {
      assert fed + bs == fed;
    } else {
      StepCollects(p, fed, bs[0]);
      assert fed + [bs[0]] + bs[1..] == fed + bs;
      RunCollects(Step(p, bs[0]), fed + [bs[0]], bs[1..]);
    }
  }

  /** Every body of a positive Content-Length, in any TCP segments: the buffers handed to the CGI
      function are the body, none is empty or longer than MAX_POST, all but the last are full,
      `received` is right for each, and only the last has it equal to the length. */
  lemma BodyHandedOver(body: seq<byte>, segments: seq<seq<byte>>)
    requires |body| > 0 && Flatten(segments) == body
    ensures var p := RunSegments(Begin(|body|), segments);
            && Flatten(DataOf(p.pieces)) == body
            && |p.pieces| > 0 && Counted(p.pieces)
            && forall i :: 0 <= i < |p.pieces| ==>
                 && 0 < |p.pieces[i].data| <= 1024
                 && (i < |p.pieces| - 1 ==> |p.pieces[i].data| == if |body| > 1024 then 1024 else |body|)
                 && (p.pieces[i].received == |body| <==> i == |p.pieces| - 1)
  {
    var p0 := Begin(|body|);
    assert Collected(p0, []) by {
      assert DataOf(p0.pieces) == [];
    }
    SegmentsIrrelevant(p0, segments);
    RunCollects(p0, [], body);
    var p := Run(p0, body);
    assert [] + body == body;
    assert Flatten(DataOf(p.pieces)) + [] == Flatten(DataOf(p.pieces));
    forall i | 0 <= i < |p.pieces| - 1
      ensures p.pieces[i].received < |body|
    {
      CountedBelow(p.pieces, i);
    }
  }

  lemma {:induction false} CountedBelow(pieces: seq<Piece>, i: nat)
    requires Counted(pieces) && i < |pieces|
    ensures pieces[i].received <= |Flatten(DataOf(pieces))|
    decreases |pieces|
  {
    var n := |pieces| - 1;
    assert pieces == pieces[..n] + [pieces[n]];
    DataOfAppend(pieces[..n], pieces[n]);
    FlattenAppend(DataOf(pieces[..n]), pieces[n].data);
    if i < n {
      CountedBelow(pieces[..n], i);
      assert pieces[..n][i] == pieces[i];
    }
  }

  // ---------------------------------------------------------------- an upload over TCP

  /** The buffers that the upload is called with. */
  function BuffersOf(segments: seq<seq<byte>>): (r: seq<seq<byte>>)
    requires |Flatten(segments)| > 0
  {
    DataOf(RunSegments(Begin(|Flatten(segments)|), segments).pieces)
  }

  /** The whole way of an upgrade image: made by `mkupgimg`, sent in any TCP segments, collected
      into POST buffers and written by the upload.  It is done at the end, and the chip holds
      exactly the selected firmware in its slot. */
  lemma UpgradeOverTcp(def: FlashUploadSpec.FlashDef, req: FlashUploadSpec.Request, flash: seq<byte>,
                       tag: seq<byte>, user1: seq<byte>, user2: seq<byte>, segments: seq<seq<byte>>)
    requires def.isFirmware && UpgradeImage.IsName(tag) && tag == def.tagName
    requires 0 < |user1| <= def.fwSize && 0 < |user2| <= def.fwSize < 0x8000_0000
    requires Flatten(segments) == UpgradeImage.Image(tag, user1, user2)
    requires req.postLen == |Flatten(segments)|
    requires NorFlash.OnSector(if req.wantsUser1 then def.fw1Pos else def.fw2Pos)
    ensures |BuffersOf(segments)| > 0 && FlashUploadSpec.HeaderPresent(BuffersOf(segments)[0])
    ensures var r := FlashUploadSpec.Calls(FlashUploadSpec.Initial(flash), def, req, BuffersOf(segments));
            var start, user := FlashUploadRuns.SlotStart(def, req), FlashUploadRuns.Selected(req, user1, user2);
            && r.state.FlstDone?
            && NorFlash.Holds(flash, r.flash, start, user)
            && (start + |user| <= |flash| ==> r.flash[start..start + |user|] == user)
            && (NorFlash.OnSector(def.fwSize) ==> FlashUploadRuns.OnlySlot(flash, r.flash, start, def.fwSize))
  {
    var body := Flatten(segments);
    BodyHandedOver(body, segments);
    FirstPieceLongEnough(body, segments);
    hide RunSegments, NorFlash.Holds, NorFlash.OnSector, FlashUploadSpec.Calls;
    var pieces := BuffersOf(segments);
    assert Flatten(pieces) == body;
    FlashUploadRuns.ImageUploaded(def, req, flash, tag, user1, user2, pieces);
    var r := FlashUploadSpec.Calls(FlashUploadSpec.Initial(flash), def, req, pieces);
    var start, user := FlashUploadRuns.SlotStart(def, req), FlashUploadRuns.Selected(req, user1, user2);
    SlotReadBack(flash, r.flash, start, user);
    if NorFlash.OnSector(def.fwSize) {
      FlashUploadRuns.FitsSlot(flash, r.flash, start, user, def.fwSize);
    }
  }

  lemma SlotReadBack(before: seq<byte>, flash: seq<byte>, start: nat, data: seq<byte>)
    requires NorFlash.Holds(before, flash, start, data)
    ensures |flash| == |before| && (start + |data| <= |flash| ==> flash[start..start + |data|] == data)
  {
    if start + |data| <= |flash| {
      FlashUploadRuns.SlotHolds(before, flash, start, data);
    }
  }

  /** The first buffer holds 40 bytes whenever the body does. */
  lemma FirstPieceLongEnough(body: seq<byte>, segments: seq<seq<byte>>)
    requires |body| >= FlashUploadSpec.HEADER_SIZE && Flatten(segments) == body
    ensures var p := RunSegments(Begin(|body|), segments);
            |p.pieces| > 0 && |p.pieces[0].data| >= FlashUploadSpec.HEADER_SIZE
  {
    BodyHandedOver(body, segments);
    var p := RunSegments(Begin(|body|), segments);
    if |p.pieces| == 1 {
      FlattenOne(p.pieces[0].data);
      assert DataOf(p.pieces) == [p.pieces[0].data];
    }
  }

  // ---------------------------------------------------------------- the code

  class Receiver {
    const len: nat
    const buffSize: nat
    const buff: array<byte>
    var buffLen: nat
    var received: nat
    ghost var pieces: seq<Piece>

    ghost predicate Valid()
      reads this, buff
    {
      && buff.Length == buffSize + 1
      && buffLen <= buffSize
      && View().Valid()
    }

    ghost function View(): Post
      requires buffLen <= buff.Length
      reads this, buff
    {
      Post(len, buffSize, buff[..buffLen], received, pieces)
    }

    /** `Content-Length:`, with a byte more than the buffer size allocated. */
    constructor (contentLength: nat)
      requires contentLength > 0
      ensures Valid() && fresh(buff) && View() == Begin(contentLength)
    {
      len := contentLength;
      buffSize := if contentLength > MAX_POST then MAX_POST else contentLength;
      buff := new byte[(if contentLength > MAX_POST then MAX_POST else contentLength) + 1](_ => 0);
      buffLen, received, pieces := 0, 0, [];
      new;
      assert View().buff == [];
    }

    /** The CGI function, here as the record of the NUL-terminated buffers it is called with. */
    ghost method CallCgi()
      requires buffLen < buff.Length && buff[buffLen] == 0
      modifies this`pieces
      ensures pieces == old(pieces) + [Piece(buff[..buffLen], received)]
    {
      pieces := pieces + [Piece(buff[..buffLen], received)];
    }

    /** One byte of the body. */
    method TakeByte(b: byte)
      requires Valid() && received < len
      modifies this, buff
      ensures Valid() && View() == Step(old(View()), b)
    {
      ghost var p := View();
      buff[buffLen] := b;
      buffLen := buffLen + 1;
      received := received + 1;
      assert buff[..buffLen] == p.buff + [b];
      if buffLen >= buffSize || received == len {
        buff[buffLen] := 0;   // there is a byte for the NUL
        CallCgi();
        buffLen := 0;
        assert buff[..buffLen] == [];
      }
    }

    /** The POST bytes of one TCP segment; the bytes behind the body are not for us. */
    method RecvBody(data: seq<byte>) returns (taken: nat)
      requires Valid()
      modifies this, buff
      ensures Valid()
      ensures taken == if len - old(received) < |data| then len - old(received) else |data|
      ensures View() == Run(old(View()), data[..taken])
    {
      hide Run, Step;
      ghost var p0 := View();
      taken := 0;
      assert data[..0] == [];
      RunNone(p0);
      while taken < |data| && received < len
        invariant taken <= |data| && received == old(received) + taken <= len
        invariant Valid() && View() == Run(p0, data[..taken])
      {
        TakeByte(data[taken]);
        RunNext(p0, data, taken);
        taken := taken + 1;
      }
    }
  }

  lemma RunNone(p: Post)
    requires p.Valid()
    ensures Run(p, []) == p
  {
  }

  lemma RunNext(p: Post, data: seq<byte>, k: nat)
    requires p.Valid() && k < |data| && p.received + k < p.len
    ensures Run(p, data[..k + 1]) == Step(Run(p, data[..k]), data[k])
  {
    assert data[..k + 1] == data[..k] + [data[k]];
    RunSplit(p, data[..k], [data[k]]);
    var q := Run(p, data[..k]);
    assert Run(Step(q, data[k]), [data[k]][1..]) == Step(q, data[k]);
  }
}
