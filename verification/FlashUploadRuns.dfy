/**
 What an upload leaves on the chip, however its data was cut into POST buffers.
 */
module FlashUploadRuns {
  import opened Bytes
  import opened NorFlash
  import opened FlashUploadSpec
  import opened UpgradeImage

  /** Cutting the data up makes no difference, once the header is in the first buffer. */
  lemma {:induction false} CallsAreFeed(u: Upload, def: FlashDef, req: Request, pieces: seq<seq<byte>>)
    requires u.Valid() && !u.state.FlstStart?
    ensures Calls(u, def, req, pieces) == Feed(u, Flatten(pieces))
    decreases |pieces|
  {
    if |pieces| > 0 {
      FeedSplit(u, pieces[0], Flatten(pieces[1..]));
      CallsAreFeed(Call(u, def, req, pieces[0]), def, req, pieces[1..]);
    }
  }

  lemma UploadAnyPieces(flash: seq<byte>, def: FlashDef, req: Request, pieces: seq<seq<byte>>)
    requires |pieces| > 0 && HeaderPresent(pieces[0])
    ensures HeaderPresent(Flatten(pieces))
    ensures var (v, n) := Begin(Initial(flash), def, req, Flatten(pieces));
            n <= |Flatten(pieces)| && Calls(Initial(flash), def, req, pieces) == Feed(v, Flatten(pieces)[n..])
  {
    var whole := Flatten(pieces);
    var u := Initial(flash);
    SameHeader(pieces[0], Flatten(pieces[1..]));
    BeginLooksAtHeader(u, def, req, pieces[0], Flatten(pieces[1..]));
    var (v, n) := Begin(u, def, req, pieces[0]);
    assert whole[n..] == pieces[0][n..] + Flatten(pieces[1..]);
    FeedSplit(v, pieces[0][n..], Flatten(pieces[1..]));
    CallsAreFeed(Feed(v, pieces[0][n..]), def, req, pieces[1..]);
  }

  lemma SameHeader(a: seq<byte>, b: seq<byte>)
    requires HeaderPresent(a)
    ensures HeaderPresent(a + b) && IsOta(a + b) == IsOta(a)
    ensures IsBin(a + b) == IsBin(a) && IsEspfs(a + b) == IsEspfs(a)
    ensures IsOta(a) ==> OtaTag(a + b) == OtaTag(a) && OtaLen1(a + b) == OtaLen1(a) && OtaLen2(a + b) == OtaLen2(a)
  {
    assert (a + b)[..4] == a[..4];
    if IsOta(a) {
      assert (a + b)[4..31] == a[4..31];
      assert (a + b)[32..36] == a[32..36] && (a + b)[36..40] == a[36..40];
    }
  }

  lemma BeginLooksAtHeader(u: Upload, def: FlashDef, req: Request, a: seq<byte>, b: seq<byte>)
    requires u.Valid() && u.state.FlstStart? && u.len == 0 && HeaderPresent(a)
    ensures HeaderPresent(a + b) && Begin(u, def, req, a + b) == Begin(u, def, req, a)
  {
    SameHeader(a, b);
  }

  // ---------------------------------------------------------------- runs of bytes

  /** An upload of `total` bytes at `start`, of which `data` came: all of it but the bytes of the
      unfinished page is on the chip. */
  ghost predicate Writing(u: Upload, before: seq<byte>, start: nat, total: nat, data: seq<byte>) {
    && u.Valid() && u.state.FlstWrite?
    && |data| < total && u.len == total - |data|
    && |u.pageData| <= |data|
    && var stored := data[..|data| - |u.pageData|];
       && u.pageData == data[|stored|..]
       && u.address == start + |stored|
       && OnPage(u.address)
       && Holds(before, u.flash, start, stored)
       && Orderly(u.ops, start, u.address)
  }

  /** The same when everything has come. */
  ghost predicate Stored(u: Upload, before: seq<byte>, start: nat, data: seq<byte>) {
    && u.Valid() && u.len == 0
    && Holds(before, u.flash, start, data)
    && Orderly(u.ops, start, start + |data|)
  }

  lemma WriteByte(u: Upload, before: seq<byte>, start: nat, total: nat, data: seq<byte>, b: byte)
    requires Writing(u, before, start, total, data)
    ensures Feed1(u, b).skip == u.skip
    ensures |data| + 1 < total ==> Writing(Feed1(u, b), before, start, total, data + [b])
    ensures |data| + 1 == total ==> Stored(Feed1(u, b), before, start, data + [b]) && Feed1(u, b).state == AfterWrite(u)
  {
    hide Holds, Orderly, OnPage, Program, ErasedIfNew, PageOps;
    var stored := data[..|data| - |u.pageData|];
    var page := u.pageData + [b];
    assert stored + page == data + [b];
    if |page| == PAGELEN || |data| + 1 == total {
      PageStored(before, u.flash, start, stored, page);
      PageOrderly(u.ops, start, u.address, |page|);
      var r := Feed1(u, b);
      if |page| == PAGELEN {
        NextPage(u.address);
      }
      assert (data + [b])[..|data| + 1] == data + [b];
    } else {
      assert (data + [b])[..|stored|] == stored;
      assert (data + [b])[|stored|..] == page;
    }
  }

  lemma NextPage(a: nat)
    requires OnPage(a)
    ensures OnPage(a + 64)
  {
  }

  lemma {:induction false} WriteRun(u: Upload, before: seq<byte>, start: nat, total: nat, data: seq<byte>,
                                    bs: seq<byte>)
    requires Writing(u, before, start, total, data) && |data| + |bs| <= total
    ensures Feed(u, bs).skip == u.skip
    ensures |data| + |bs| < total ==> Writing(Feed(u, bs), before, start, total, data + bs)
    ensures |data| + |bs| == total ==> Stored(Feed(u, bs), before, start, data + bs)
    ensures |data| + |bs| == total ==> Feed(u, bs).state == AfterWrite(u)
    decreases |bs|
  {
    hide Holds, Orderly, Feed1;
    if |bs| == 0 {
      assert data + bs == data;
    } else {
      WriteByte(u, before, start, total, data, bs[0]);
      assert data + [bs[0]] + bs[1..] == data + bs;
      if |bs| == 1 {
        assert data + [bs[0]] == data + bs;
        assert Feed(Feed1(u, bs[0]), bs[1..]) == Feed1(u, bs[0]);
      } else {
        WriteRun(Feed1(u, bs[0]), before, start, total, data + [bs[0]], bs[1..]);
      }
    }
  }

  lemma StartWriting(u: Upload, start: nat, total: nat)
    requires u.Valid() && u.state.FlstWrite? && u.pageData == [] && u.len == total > 0
    requires u.address == start && OnSector(start) && u.ops == []
    ensures Writing(u, u.flash, start, total, [])
  {
    SectorEndOnBoundary(start);
    assert OnPage(start) by {
      assert start == 64 * (64 * (start / 4096));
    }
  }

  lemma {:induction false} SkipRun(u: Upload, bs: seq<byte>)
    requires u.Valid() && u.state.FlstSkip? && 0 < |bs| <= u.skip
    ensures Feed(u, bs) == if |bs| == u.skip then u.(skip := 0, state := AfterSkip(u)) else u.(skip := u.skip - |bs|)
    decreases |bs|
  {
    if |bs| == 1 {
      assert Feed(Feed1(u, bs[0]), bs[1..]) == Feed1(u, bs[0]);
    } else {
      SkipRun(Feed1(u, bs[0]), bs[1..]);
    }
  }

  // ---------------------------------------------------------------- raw images

  /** A raw image that passes its header check and fits: when all its bytes have come, in any
      pieces, the upload is done and the chip holds exactly the image; and not before. */
  lemma RawUploaded(flash: seq<byte>, def: FlashDef, req: Request, data: seq<byte>, pieces: seq<seq<byte>>)
    requires |data| >= 12 && if def.isFirmware then IsBin(data) else IsEspfs(data)
    requires req.postLen == |data| <= def.fwSize && OnSector(def.fw1Pos)
    requires |pieces| > 0 && HeaderPresent(pieces[0]) && Flatten(pieces) <= data
    ensures var r := Calls(Initial(flash), def, req, pieces);
            && (r.state.FlstDone? <==> Flatten(pieces) == data)
            && (r.state.FlstDone? ==> Stored(r, flash, def.fw1Pos, data))
            && (!r.state.FlstDone? ==> Writing(r, flash, def.fw1Pos, |data|, Flatten(pieces)))
  {
    hide Holds, Orderly, Feed, Calls, SectorEnd, OnSector, OnPage;
    var sent := Flatten(pieces);
    UploadAnyPieces(flash, def, req, pieces);
    var v := RawBegins(def, req, flash, data, sent);
    StartWriting(v, def.fw1Pos, |data|);
    WriteRun(v, flash, def.fw1Pos, |data|, [], sent);
    assert [] + sent == sent;
  }

  /** A raw image is accepted by its header, wherever the first piece ends. */
  lemma RawBegins(def: FlashDef, req: Request, flash: seq<byte>, data: seq<byte>, sent: seq<byte>) returns (v: Upload)
    requires |data| >= 12 && if def.isFirmware then IsBin(data) else IsEspfs(data)
    requires req.postLen == |data| <= def.fwSize && HeaderPresent(sent) && sent <= data
    ensures Begin(Initial(flash), def, req, sent) == (v, 0) && sent[0..] == sent
    ensures v == Initial(flash).(len := |data|, address := def.fw1Pos, state := FlstWrite)
  {
    SameHeader(sent, data[|sent|..]);
    assert sent + data[|sent|..] == data;
    assert !IsOta(sent);
    v := Begin(Initial(flash), def, req, sent).0;
  }

  // ---------------------------------------------------------------- upgrade images

  /** The image for the first slot comes first; what follows it is skipped. */
  lemma FirstImage(v: Upload, start: nat, image: seq<byte>, other: seq<byte>, sent: seq<byte>)
    requires v.Valid() && v.state.FlstWrite? && v.pageData == [] && v.ops == [] && v.skip == |other|
    requires v.len == |image| > 0 && v.address == start && OnSector(start)
    requires sent <= image + other
    ensures var r := Feed(v, sent);
            && (r.state.FlstDone? <==> sent == image + other)
            && !r.state.FlstError? && r.err == v.err
            && (r.state.FlstDone? ==> Stored(r, v.flash, start, image))
  {
    StartWriting(v, start, |image|);
    hide Holds, Orderly, SectorEnd, OnSector, OnPage;
    FeedKeepsErr(v, sent);
    if |sent| < |image| {
      WriteRun(v, v.flash, start, |image|, [], sent);
    } else {
      var tail := sent[|image|..];
      assert sent == image + tail;
      assert [] + image == image;
      FeedSplit(v, image, tail);
      WriteRun(v, v.flash, start, |image|, [], image);
      var w := Feed(v, image);
      if |tail| > 0 {
        SkipRun(w, tail);
      }
      assert sent == image + other <==> |tail| == |other|;
    }
  }

  /** The image for the second slot comes second; what precedes it is skipped. */
  lemma SecondImage(v: Upload, start: nat, other: seq<byte>, image: seq<byte>, sent: seq<byte>)
    requires v.Valid() && v.state.FlstSkip? && v.pageData == [] && v.ops == [] && v.skip == |other|
    requires v.len == |image| > 0 && v.address == start && OnSector(start)
    requires sent <= other + image
    ensures var r := Feed(v, sent);
            && (r.state.FlstDone? <==> sent == other + image)
            && !r.state.FlstError? && r.err == v.err
            && (r.state.FlstDone? ==> Stored(r, v.flash, start, image))
  {
    hide Holds, Orderly, SectorEnd, OnSector, OnPage, Feed, Feed1;
    FeedKeepsErr(v, sent);
    if |sent| > |other| {
      var w, tail := v.(skip := 0, state := FlstWrite), sent[|other|..];
      assert sent == other + tail && tail == image[..|tail|];
      Skipped(v, w, other, tail);
      StartWriting(w, start, |image|);
      WriteRun(w, v.flash, start, |image|, [], tail);
      assert [] + tail == tail;
      assert sent == other + image <==> |tail| == |image|;
      assert |tail| == |image| ==> tail == image;
    } else if |sent| > 0 {
      SkipRun(v, sent);
    } else {
      assert Feed(v, sent) == v by {
        FeedNothing(v);
      }
    }
  }

  lemma FeedNothing(v: Upload)
    requires v.Valid()
    ensures Feed(v, []) == v
  {
  }

  /** What is skipped leaves the upload writing. */
  lemma Skipped(v: Upload, w: Upload, other: seq<byte>, tail: seq<byte>)
    requires v.Valid() && v.state.FlstSkip? && v.skip == |other| && v.len > 0 && v.pageData == [] && |tail| > 0
    requires w == v.(skip := 0, state := FlstWrite)
    ensures Feed(v, other + tail) == Feed(w, tail)
  {
    if |other| > 0 {
      FeedSplit(v, other, tail);
      hide Feed;
      SkipRun(v, other);
    } else {
      assert other + tail == tail;
      assert Feed1(v, tail[0]) == Feed1(w, tail[0]);
    }
  }

  lemma {:induction false} FeedKeepsErr(u: Upload, bs: seq<byte>)
    requires u.Valid()
    ensures Feed(u, bs).err == u.err && (Feed(u, bs).state.FlstError? ==> u.state.FlstError?)
    decreases |bs|
  {
    if |bs| > 0 {
      FeedKeepsErr(Feed1(u, bs[0]), bs[1..]);
    }
  }

  lemma ImageBegins(def: FlashDef, req: Request, flash: seq<byte>, tag: seq<byte>, user1: seq<byte>,
                    user2: seq<byte>, sent: seq<byte>)
    requires def.isFirmware && IsName(tag) && (tag == def.tagName || req.force)
    requires |user1| < 0x8000_0000 && |user2| < 0x8000_0000
    requires req.postLen == |Image(tag, user1, user2)| <= 2 * def.fwSize + HEADER_SIZE
    requires HeaderPresent(sent) && sent <= Image(tag, user1, user2) && |sent| >= HEADER_SIZE
    ensures var (v, n) := Begin(Initial(flash), def, req, sent);
            && n == HEADER_SIZE && sent[n..] <= user1 + user2
            && (|sent| == |Image(tag, user1, user2)| <==> sent[n..] == user1 + user2)
            && v == if req.wantsUser1
                    then Initial(flash).(state := FlstWrite, len := |user1|, skip := |user2|, address := def.fw1Pos)
                    else Initial(flash).(state := FlstSkip, len := |user2|, skip := |user1|, address := def.fw2Pos)
  {
    var header := Header(tag, |user1|, |user2|);
    var rest := sent[HEADER_SIZE..];
    var image := Image(tag, user1, user2);
    assert image == header + (user1 + user2);
    assert image[HEADER_SIZE..] == user1 + user2;
    assert image[..HEADER_SIZE] == header;
    assert sent == image[..|sent|];
    assert sent == header + rest;
    HeaderReadBack(tag, |user1|, |user2|, rest);
    assert rest == (user1 + user2)[..|rest|];
  }

  /** An image of `mkupgimg` for this device (or forced on it), uploaded in any pieces with the
      header in the first: when all of it has come, and not before, the upload is done; then the
      selected slot holds exactly the selected firmware, the rest of its last sector is erased and
      everything else on the chip is as it was.  Every write went to cells erased in this upload
      and not yet written, at increasing addresses, within the sectors of the firmware. */
  lemma ImageUploaded(def: FlashDef, req: Request, flash: seq<byte>, tag: seq<byte>, user1: seq<byte>,
                      user2: seq<byte>, pieces: seq<seq<byte>>)
    requires def.isFirmware && IsName(tag) && (tag == def.tagName || req.force)
    requires |user1| < 0x8000_0000 && |user2| < 0x8000_0000
    requires req.postLen == |Image(tag, user1, user2)| <= 2 * def.fwSize + HEADER_SIZE
    requires OnSector(if req.wantsUser1 then def.fw1Pos else def.fw2Pos)
    requires if req.wantsUser1 then |user1| > 0 else |user2| > 0
    requires |pieces| > 0 && |pieces[0]| >= HEADER_SIZE && Flatten(pieces) <= Image(tag, user1, user2)
    ensures HeaderPresent(pieces[0])
    ensures var r := Calls(Initial(flash), def, req, pieces);
            var start := if req.wantsUser1 then def.fw1Pos else def.fw2Pos;
            var firmware := if req.wantsUser1 then user1 else user2;
            && (r.state.FlstDone? <==> Flatten(pieces) == Image(tag, user1, user2))
            && !r.state.FlstError? && r.err == PrematureEnd
            && (r.state.FlstDone? ==>
                  && Holds(flash, r.flash, start, firmware)
                  && Disciplined(r.ops) && Within(r.ops, start, SectorEnd(start + |firmware|)))
  {
    hide Holds, OnSector, Disciplined, Within, Begin, SectorEnd, Feed, Calls, Image, HeaderPresent;
    var sent := Flatten(pieces);
    FirstPieceHasHeader(tag, user1, user2, pieces);
    UploadAnyPieces(flash, def, req, pieces);
    ImageBegins(def, req, flash, tag, user1, user2, sent);
    var (v, n) := Begin(Initial(flash), def, req, sent);
    assert sent == Image(tag, user1, user2) <==> |sent| == |Image(tag, user1, user2)|;
    if req.wantsUser1 {
      FirstImage(v, def.fw1Pos, user1, user2, sent[n..]);
    } else {
      SecondImage(v, def.fw2Pos, user1, user2, sent[n..]);
    }
  }

  lemma FirstPieceHasHeader(tag: seq<byte>, user1: seq<byte>, user2: seq<byte>, pieces: seq<seq<byte>>)
    requires IsName(tag) && |user1| < 0x8000_0000 && |user2| < 0x8000_0000
    requires |pieces| > 0 && |pieces[0]| >= HEADER_SIZE && Flatten(pieces) <= Image(tag, user1, user2)
    ensures HeaderPresent(pieces[0])
  {
    var image := Image(tag, user1, user2);
    var header := Header(tag, |user1|, |user2|);
    assert image == header + (user1 + user2);
    assert pieces[0] == Flatten(pieces)[..|pieces[0]|] == image[..|pieces[0]|];
    assert pieces[0] == header + pieces[0][HEADER_SIZE..] by {
      assert image[..HEADER_SIZE] == header;
    }
    HeaderReadBack(tag, |user1|, |user2|, pieces[0][HEADER_SIZE..]);
  }

  /** The slot itself, read back. */
  lemma SlotHolds(before: seq<byte>, flash: seq<byte>, start: nat, data: seq<byte>)
    requires Holds(before, flash, start, data) && start + |data| <= |flash|
    ensures flash[start..start + |data|] == data
    ensures forall k :: 0 <= k < |flash| && (k < start || k >= SectorEnd(start + |data|)) ==> flash[k] == before[k]
  {
  }

  // ---------------------------------------------------------------- the slot

  /** No cell outside the slot of `size` cells has changed. */
  ghost predicate OnlySlot(before: seq<byte>, after: seq<byte>, start: nat, size: nat) {
    |after| == |before| && forall k :: 0 <= k < |before| && !(start <= k < start + size) ==> after[k] == before[k]
  }

  /** Where an upgrade goes, and what goes there. */
  function SlotStart(def: FlashDef, req: Request): nat { if req.wantsUser1 then def.fw1Pos else def.fw2Pos }

  function Selected<T>(req: Request, user1: T, user2: T): T { if req.wantsUser1 then user1 else user2 }

  /** The chip after an upload on a chip that held `flash`. */
  function ChipAfter(def: FlashDef, req: Request, pieces: seq<seq<byte>>, flash: seq<byte>): seq<byte>
    requires |pieces| > 0 && HeaderPresent(pieces[0])
  {
    Calls(Initial(flash), def, req, pieces).flash
  }

  lemma SectorEndBelow(a: nat, limit: nat)
    requires a <= limit && OnSector(limit)
    ensures SectorEnd(a) <= limit
  {
  }

  lemma SumOnSector(a: nat, b: nat)
    requires OnSector(a) && OnSector(b)
    ensures OnSector(a + b)
  {
  }

  lemma FitsSlot(before: seq<byte>, after: seq<byte>, start: nat, data: seq<byte>, size: nat)
    requires Holds(before, after, start, data) && OnSector(start) && OnSector(size) && |data| <= size
    ensures OnlySlot(before, after, start, size)
  {
    SumOnSector(start, size);
    SectorEndBelow(start + |data|, start + size);
    hide SectorEnd, OnSector;
  }

  /** The first cell behind the slot holds the firmware, whatever it held before. */
  lemma LeavesSlot(before: seq<byte>, after: seq<byte>, start: nat, data: seq<byte>, size: nat)
    requires Holds(before, after, start, data) && size < |data| && start + size < |before|
    requires before[start + size] != data[size]
    ensures !OnlySlot(before, after, start, size)
  {
    assert after[start + size] == CellAfter(before[start + size], start, data, start + size);
  }

  /** A finished upgrade on a chip of `chip` cells, which has cells behind the slot: it changes nothing outside
      the slot, whatever the chip held, if and only if the selected firmware fits the slot. */
  lemma SlotKept(def: FlashDef, req: Request, chip: nat, tag: seq<byte>, user1: seq<byte>, user2: seq<byte>,
                 pieces: seq<seq<byte>>)
    requires def.isFirmware && IsName(tag) && (tag == def.tagName || req.force)
    requires |user1| < 0x8000_0000 && |user2| < 0x8000_0000
    requires req.postLen == |Image(tag, user1, user2)| <= 2 * def.fwSize + HEADER_SIZE
    requires OnSector(SlotStart(def, req)) && OnSector(def.fwSize) && SlotStart(def, req) + def.fwSize < chip
    requires |Selected(req, user1, user2)| > 0
    requires |pieces| > 0 && |pieces[0]| >= HEADER_SIZE && Flatten(pieces) == Image(tag, user1, user2)
    ensures HeaderPresent(pieces[0])
    ensures (forall flash: seq<byte> :: |flash| == chip ==>
               OnlySlot(flash, ChipAfter(def, req, pieces, flash), SlotStart(def, req), def.fwSize))
       <==> |Selected(req, user1, user2)| <= def.fwSize
  {
    hide Holds, OnSector, Calls, Image, HeaderPresent, IsName, OnlySlot, ChipAfter;
    var start, firmware := SlotStart(def, req), Selected(req, user1, user2);
    FirstPieceHasHeader(tag, user1, user2, pieces);
    if |firmware| <= def.fwSize {
      forall flash: seq<byte> | |flash| == chip
        ensures OnlySlot(flash, ChipAfter(def, req, pieces, flash), start, def.fwSize)
      {
        UpgradeHolds(def, req, flash, tag, user1, user2, pieces);
        FitsSlot(flash, ChipAfter(def, req, pieces, flash), start, firmware, def.fwSize);
      }
    } else {
      var flash := OtherThan(chip, firmware[def.fwSize]);
      UpgradeHolds(def, req, flash, tag, user1, user2, pieces);
      LeavesSlot(flash, ChipAfter(def, req, pieces, flash), start, firmware, def.fwSize);
    }
  }

  /** A chip that holds the byte b nowhere. */
  function OtherThan(chip: nat, b: byte): (flash: seq<byte>)
    ensures |flash| == chip && forall k :: 0 <= k < chip ==> flash[k] != b
  {
    seq<byte>(chip, _ => if b == 0 then 1 else 0)
  }

  lemma UpgradeHolds(def: FlashDef, req: Request, flash: seq<byte>, tag: seq<byte>, user1: seq<byte>, user2: seq<byte>,
                     pieces: seq<seq<byte>>)
    requires def.isFirmware && IsName(tag) && (tag == def.tagName || req.force)
    requires |user1| < 0x8000_0000 && |user2| < 0x8000_0000
    requires req.postLen == |Image(tag, user1, user2)| <= 2 * def.fwSize + HEADER_SIZE
    requires OnSector(SlotStart(def, req)) && |Selected(req, user1, user2)| > 0
    requires |pieces| > 0 && |pieces[0]| >= HEADER_SIZE && Flatten(pieces) == Image(tag, user1, user2)
    ensures HeaderPresent(pieces[0])
    ensures Holds(flash, ChipAfter(def, req, pieces, flash), SlotStart(def, req), Selected(req, user1, user2))
  {
    ImageUploaded(def, req, flash, tag, user1, user2, pieces);
    hide Holds, OnSector, Calls, Image, HeaderPresent, IsName;
  }

  /** An instance: user1 has one byte too many and user2 makes up for it, so the check of the lengths passes;
      the byte is written to the first cell behind the slot. */
  lemma OverlongUploaded(def: FlashDef, req: Request, flash: seq<byte>, user1: seq<byte>, user2: seq<byte>)
    requires def.isFirmware && IsName(def.tagName) && req.wantsUser1 && OnSector(def.fw1Pos)
    requires 0 < |user2| == def.fwSize - 1 && |user1| == def.fwSize + 1 < 0x8000_0000
    requires req.postLen == |Image(def.tagName, user1, user2)| && def.fw1Pos + def.fwSize < |flash|
    ensures var pieces := [Image(def.tagName, user1, user2)];
            && HeaderPresent(pieces[0])
            && var r := Calls(Initial(flash), def, req, pieces);
               r.state.FlstDone? && |r.flash| == |flash| && r.flash[def.fw1Pos + def.fwSize] == user1[def.fwSize]
  {
    var image := Image(def.tagName, user1, user2);
    FlattenOne(image);
    ImageUploaded(def, req, flash, def.tagName, user1, user2, [image]);
    hide Calls, Image, HeaderPresent, IsName;
  }

  /** A header check that fails leaves the chip alone, whatever comes after, and so does an upload that is done. */
  lemma {:induction false} RejectedLeavesChip(u: Upload, bs: seq<byte>)
    requires u.Valid() && (u.state.FlstError? || u.state.FlstDone?)
    ensures Feed(u, bs) == u
    decreases |bs|
  {
    if |bs| > 0 {
      RejectedLeavesChip(Feed1(u, bs[0]), bs[1..]);
    }
  }
}
