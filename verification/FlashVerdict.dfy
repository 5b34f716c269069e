/**
 When `cgiUploadFirmware` refuses an upload, and with what, by the bytes that are uploaded.
 */
module FlashVerdict {
  import opened Bytes
  import opened NorFlash
  import opened FlashUploadSpec
  import opened FlashUploadRuns
  import UpgradeImage
  import EspFsFormat
  import FlashUpload

  /** "EHUG" */
  predicate SaysEhug(data: seq<byte>) {
    |data| >= 4 && data[0] == 69 && data[1] == 72 && data[2] == 85 && data[3] == 71
  }

  /** "ESfs" */
  predicate SaysEsfs(data: seq<byte>) {
    |data| >= 4 && data[0] == 69 && data[1] == 83 && data[2] == 102 && data[3] == 115
  }

  /** The head of a firmware of the ESP8266: magic, four segments, SPI mode and flash size, an entry point at
      0x4010.... and a load address of zero. */
  predicate SaysFirmware(data: seq<byte>) {
    && |data| >= 12
    && data[0] == 0xEA && data[1] == 4 && data[2] < 4 && data[3] < 0x41
    && data[6..12] == [0x10, 0x40, 0, 0, 0, 0]
  }

  datatype Verdict = Taken | Refused(err: Error)

  /** What becomes of an upload whose first buffer is `data`. */
  function VerdictOn(def: FlashDef, req: Request, data: seq<byte>): Verdict
    requires |data| >= 12 && (SaysEhug(data) ==> |data| >= 40)
  {
    if def.isFirmware && SaysEhug(data) then
      if CString(data[4..31]) != def.tagName && !req.force then Refused(WrongDevice)
      else if req.postLen > 2 * def.fwSize + 40 then Refused(TooLarge)
      else Taken
    else if if def.isFirmware then SaysFirmware(data) else SaysEsfs(data) then
      if req.postLen > def.fwSize then Refused(TooLarge) else Taken
    else Refused(InvalidType)
  }

  lemma SameTests(data: seq<byte>)
    requires |data| >= 12
    ensures IsOta(data) == SaysEhug(data) && IsEspfs(data) == SaysEsfs(data) && IsBin(data) == SaysFirmware(data)
  {
    assert data[..4] == [data[0], data[1], data[2], data[3]];
    assert data[6..12] == [data[6], data[7], data[8], data[9], data[10], data[11]];
  }

  /** Every upload, in any pieces with the header in the first: refused exactly as the first piece says, with that
      error and an untouched chip; otherwise there is never an error. */
  lemma UploadJudged(def: FlashDef, req: Request, flash: seq<byte>, pieces: seq<seq<byte>>)
    requires |pieces| > 0 && HeaderPresent(pieces[0])
    ensures |pieces[0]| >= 12 && (SaysEhug(pieces[0]) ==> |pieces[0]| >= 40)
    ensures var r, v := Calls(Initial(flash), def, req, pieces), VerdictOn(def, req, pieces[0]);
            && (r.state.FlstError? <==> v.Refused?)
            && (v.Refused? ==> r.err == v.err && r.flash == flash && r.ops == [])
            && (v.Taken? ==> r.err == PrematureEnd)
  {
    var u, first := Initial(flash), pieces[0];
    SameTests(first);
    var (v, n) := Begin(u, def, req, first);
    var rest := first[n..];
    CallsAreFeed(Feed(v, rest), def, req, pieces[1..]);
    hide Feed, Calls;
    FeedKeepsErr(v, rest);
    FeedKeepsErr(Feed(v, rest), Flatten(pieces[1..]));
    if v.state.FlstError? {
      RejectedLeavesChip(v, rest);
      RejectedLeavesChip(v, Flatten(pieces[1..]));
    }
  }

  // ---------------------------------------------------------------- what the builders make

  /** An image of `mkupgimg` in pieces, judged by its tag, the `force` argument and its length. */
  lemma ImageJudged(def: FlashDef, req: Request, tag: seq<byte>, user1: seq<byte>, user2: seq<byte>,
                    pieces: seq<seq<byte>>)
    requires def.isFirmware && UpgradeImage.IsName(tag) && |user1| < 0x8000_0000 && |user2| < 0x8000_0000
    requires |pieces| > 0 && |pieces[0]| >= 40 && Flatten(pieces) <= UpgradeImage.Image(tag, user1, user2)
    ensures HeaderPresent(pieces[0]) && SaysEhug(pieces[0])
    ensures VerdictOn(def, req, pieces[0]) ==
            if tag != def.tagName && !req.force then Refused(WrongDevice)
            else if req.postLen > 2 * def.fwSize + 40 then Refused(TooLarge)
            else Taken
  {
    FirstPieceHasHeader(tag, user1, user2, pieces);
    var image := UpgradeImage.Image(tag, user1, user2);
    var header := UpgradeImage.Header(tag, |user1|, |user2|);
    var first := pieces[0];
    assert image == header + (user1 + user2);
    assert first == Flatten(pieces)[..|first|] == image[..|first|];
    assert image[..40] == header;
    assert first == header + first[40..];
    UpgradeImage.HeaderReadBack(tag, |user1|, |user2|, first[40..]);
    SameTests(first);
  }

  /** Firmware for another device is refused, and the chip is left alone. */
  lemma ForeignFirmwareRefused(def: FlashDef, req: Request, flash: seq<byte>, tag: seq<byte>, user1: seq<byte>,
                               user2: seq<byte>, pieces: seq<seq<byte>>)
    requires def.isFirmware && UpgradeImage.IsName(tag) && |user1| < 0x8000_0000 && |user2| < 0x8000_0000
    requires tag != def.tagName && !req.force
    requires |pieces| > 0 && |pieces[0]| >= 40 && Flatten(pieces) <= UpgradeImage.Image(tag, user1, user2)
    ensures HeaderPresent(pieces[0])
    ensures var r := Calls(Initial(flash), def, req, pieces);
            r.state.FlstError? && r.err == WrongDevice && r.flash == flash && r.ops == []
  {
    ImageJudged(def, req, tag, user1, user2, pieces);
    UploadJudged(def, req, flash, pieces);
  }

  /** An image of mkespfsimage is an archive, and firmware is none. */
  lemma ArchiveJudged(files: seq<EspFsFormat.File>, more: seq<byte>)
    ensures var data := EspFsFormat.Image(files) + more;
            |data| >= 16 && SaysEsfs(data) && !SaysEhug(data) && !SaysFirmware(data)
  {
    var image := EspFsFormat.Image(files);
    hide EspFsFormat.Entry, EspFsFormat.LastHeader;
    if files == [] {
      HeaderSays(1, 0, 0, 0, 0);
      assert image == EspFsFormat.LastHeader();
      LastSays();
    } else {
      EntrySays(files[0]);
      assert image[..4] == EspFsFormat.Entry(files[0])[..4];
    }
    assert (image + more)[..4] == image[..4];
  }

  lemma HeaderSays(flags: byte, compression: byte, nameLen: nat, comp: nat, decomp: nat)
    ensures EspFsFormat.Header(flags, compression, nameLen, comp, decomp)[..4] == [69, 83, 102, 115]
  {
    var h := EspFsFormat.Header(flags, compression, nameLen, comp, decomp);
    assert h[..4] == Le32(EspFsFormat.MAGIC);
  }

  lemma LastSays()
    ensures EspFsFormat.LastHeader()[..4] == [69, 83, 102, 115]
  {
    HeaderSays(1, 0, 0, 0, 0);
  }

  lemma EntrySays(f: EspFsFormat.File)
    ensures EspFsFormat.Entry(f)[..4] == [69, 83, 102, 115]
  {
    var head := EspFsFormat.EntryHead(f);
    HeaderSays(if f.gzip then 2 else 0, 0, EspFsFormat.Round4(|f.name| + 1), |f.stored|, f.size);
    assert head[..4] == [69, 83, 102, 115];
    hide EspFsFormat.EntryHead, EspFsFormat.PaddedName, EspFsFormat.Round4;
    assert EspFsFormat.Entry(f)[..4] == head[..4];
  }

  /** An archive that fits is taken, and when all of it has come, in any pieces, the chip holds it where the
      file system is read from. */
  lemma ArchiveUploaded(def: FlashDef, req: Request, flash: seq<byte>, files: seq<EspFsFormat.File>,
                        pieces: seq<seq<byte>>)
    requires !def.isFirmware && req.postLen == |EspFsFormat.Image(files)| <= def.fwSize && OnSector(def.fw1Pos)
    requires |pieces| > 0 && |pieces[0]| >= 12 && Flatten(pieces) == EspFsFormat.Image(files)
    ensures HeaderPresent(pieces[0]) && VerdictOn(def, req, pieces[0]) == Taken
    ensures var r := Calls(Initial(flash), def, req, pieces);
            && r.state.FlstDone? && Holds(flash, r.flash, def.fw1Pos, EspFsFormat.Image(files))
            && (def.fw1Pos + |EspFsFormat.Image(files)| <= |flash| ==>
                  At(r.flash, def.fw1Pos, EspFsFormat.Image(files)))
  {
    var image := EspFsFormat.Image(files);
    FirstOfArchive(files, pieces);
    hide EspFsFormat.Image, Calls, Holds, OnSector, FlashUploadRuns.Stored, HeaderPresent, Flatten;
    SameTests(image);
    RawUploaded(flash, def, req, image, pieces);
    var r := Calls(Initial(flash), def, req, pieces);
    StoredHolds(r, flash, def.fw1Pos, image);
    HoldsLength(flash, r.flash, def.fw1Pos, image);
    if def.fw1Pos + |image| <= |flash| {
      SlotHolds(flash, r.flash, def.fw1Pos, image);
    }
  }

  lemma FirstOfArchive(files: seq<EspFsFormat.File>, pieces: seq<seq<byte>>)
    requires |pieces| > 0 && |pieces[0]| >= 12 && Flatten(pieces) == EspFsFormat.Image(files)
    ensures SaysEsfs(EspFsFormat.Image(files)) && HeaderPresent(pieces[0]) && SaysEsfs(pieces[0])
        && !SaysEhug(pieces[0])
  {
    var image, first := EspFsFormat.Image(files), pieces[0];
    ArchiveJudged(files, []);
    hide EspFsFormat.Image;
    assert image + [] == image;
    assert first == image[..|first|];
    assert first[0] == image[0] && first[1] == image[1] && first[2] == image[2] && first[3] == image[3];
    SameTests(first);
  }

  lemma StoredHolds(u: Upload, before: seq<byte>, start: nat, data: seq<byte>)
    requires FlashUploadRuns.Stored(u, before, start, data)
    ensures Holds(before, u.flash, start, data)
  {
  }

  lemma HoldsLength(before: seq<byte>, flash: seq<byte>, start: nat, data: seq<byte>)
    requires Holds(before, flash, start, data)
    ensures |flash| == |before|
  {
  }

  // ---------------------------------------------------------------- the reply

  lemma OneCall(u: Upload, def: FlashDef, req: Request, pieces: seq<seq<byte>>)
    requires u.Valid() && |pieces| > 0 && pieces[0] != []
    requires u.state.FlstStart? ==> u.len == 0 && HeaderPresent(pieces[0])
    ensures var v := Call(u, def, req, pieces[0]);
            !v.state.FlstStart? && Calls(u, def, req, pieces) == Calls(v, def, req, pieces[1..])
  {
  }

  lemma NoCalls(u: Upload, def: FlashDef, req: Request)
    requires u.Valid() && !u.state.FlstStart?
    ensures Calls(u, def, req, []) == u
  {
  }

  lemma FirstOff(pieces: seq<seq<byte>>)
    requires pieces != []
    ensures |Flatten(pieces)| == |pieces[0]| + |Flatten(pieces[1..])|
  {
  }

  lemma MoreToCome(pieces: seq<seq<byte>>, k: nat)
    requires (forall p <- pieces :: p != []) && k <= |pieces|
    ensures |Flatten(pieces[k..])| == 0 <==> k == |pieces|
  {
    if k < |pieces| {
      assert pieces[k] in pieces && pieces[k..][0] == pieces[k];
    }
  }

  /** The POST body of an upload handed to the CGI function buffer by buffer: the reply, and what it leaves. */
  method UploadPieces(def: FlashDef, req: Request, chip: seq<byte>, pieces: seq<seq<byte>>)
    returns (u: FlashUpload.Uploader, reply: FlashUpload.Reply)
    requires |pieces| > 0 && HeaderPresent(pieces[0]) && (forall p <- pieces :: p != [])
    requires req.postLen == |Flatten(pieces)|
    ensures u.Valid() && u.View() == Calls(Initial(chip), def, req, pieces)
    ensures reply.Reply? && reply.err == u.View().err
    ensures |pieces[0]| >= 12 && (SaysEhug(pieces[0]) ==> |pieces[0]| >= 40)
    ensures reply.status == if VerdictOn(def, req, pieces[0]).Refused? then 400 else 200
    ensures VerdictOn(def, req, pieces[0]).Refused? ==> !reply.ok && u.View().flash == chip
    ensures reply.ok <==> u.View().state.FlstDone?
  {
    hide Calls, Call, VerdictOn, Flatten;
    u := new FlashUpload.Uploader(chip);
    var received: nat := 0;
    reply := FlashUpload.NoReply;
    UploadJudged(def, req, chip, pieces);
    assert pieces[0..] == pieces;
    for k := 0 to |pieces|
      invariant fresh(u) && fresh(u.pageData) && u.Valid()
      invariant received + |Flatten(pieces[k..])| == req.postLen
      invariant k == 0 ==> u.View() == Initial(chip)
      invariant k > 0 ==> !u.View().state.FlstStart?
      invariant Calls(u.View(), def, req, pieces[k..]) == Calls(Initial(chip), def, req, pieces)
      invariant k == |pieces| ==> reply.Reply? && reply.err == u.View().err && reply.ok == u.View().state.FlstDone?
      invariant k == |pieces| ==> reply.status == if u.View().state.FlstError? then 400 else 200
    {
      var before := u.View();
      assert pieces[k] in pieces && pieces[k..][1..] == pieces[k + 1..];
      OneCall(before, def, req, pieces[k..]);
      MoreToCome(pieces, k + 1);
      FirstOff(pieces[k..]);
      received := received + |pieces[k]|;
      var r;
      r, reply := u.Cgi(def, req, pieces[k], received);
    }
    assert pieces[|pieces|..] == [];
    NoCalls(u.View(), def, req);
  }
}
