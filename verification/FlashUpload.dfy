/**
 The firmware upload of `cgiflash.c` as it runs: a POST buffer at a time, a page at a time.
 */
module FlashUpload {
  import opened Bytes
  import opened NorFlash
  import opened FlashUploadSpec

  datatype CgiState = More | Done

  /** The answer when all the POST data has been received. */
  datatype Reply = NoReply | Reply(status: nat, ok: bool, err: Error)

  class Uploader {
    var state: State
    const pageData: array<byte>
    var pagePos: nat
    var address: nat
    var len: nat
    var skip: nat
    var err: Error
    // the chip
    var flash: seq<byte>
    ghost var ops: seq<FlashOp>

    ghost function View(): Upload
      requires pagePos <= pageData.Length
      reads this, pageData
    {
      Upload(state, pageData[..pagePos], address, len, skip, err, flash, ops)
    }

    ghost predicate Valid()
      reads this, pageData
    {
      && pageData.Length == PAGELEN && pagePos < PAGELEN
      && View().Valid()
      && (state.FlstStart? ==> len == 0)
    }

    /** The first call: a cleared `UploadState`. */
    constructor (chip: seq<byte>)
      ensures Valid() && fresh(pageData) && View() == Initial(chip)
    {
      state, pagePos, address, len, skip, err := FlstStart, 0, 0, 0, 0, PrematureEnd;
      pageData := new byte[PAGELEN](_ => 0);
      flash, ops := chip, [];
      new;
      assert View().pageData == [];
    }

    /** Append to the page buffer. */
    method CopyIn(src: seq<byte>)
      requires pagePos + |src| <= pageData.Length
      modifies pageData, this`pagePos
      ensures pagePos == old(pagePos) + |src|
      ensures pageData[..pagePos] == old(pageData[..pagePos]) + src
    {
      for k := 0 to |src|
        invariant pagePos == old(pagePos)
        invariant pageData[..pagePos + k] == old(pageData[..pagePos]) + src[..k]
      {
        pageData[pagePos + k] := src[k];
        assert pageData[..pagePos + k + 1] == pageData[..pagePos + k] + [pageData[pagePos + k]];
      }
      pagePos := pagePos + |src|;
    }

    /** The page goes to the chip, onto a fresh sector if it is the first of one. */
    method FlashPage()
      requires pagePos <= pageData.Length == PAGELEN && state.FlstWrite?
      modifies this
      ensures pagePos == 0 && View() == WritePage(old(View()))
    {
      if address % SPI_FLASH_SEC_SIZE == 0 {
        flash := EraseSector(flash, address / SPI_FLASH_SEC_SIZE);
      }
      flash := Program(flash, address, pageData[..pagePos]);
      ops := PageOps(ops, address, pagePos);
      address := address + PAGELEN;
      pagePos := 0;
      if len == 0 {
        state := if skip != 0 then FlstSkip else FlstDone;
      }
      assert pageData[..pagePos] == [];
    }

    /** FLST_START: look at the header; the number of bytes taken. */
    method Start(def: FlashDef, req: Request, data: seq<byte>) returns (taken: nat)
      requires Valid() && state.FlstStart? && HeaderPresent(data)
      modifies this
      ensures Valid() && (View(), taken) == Begin(old(View()), def, req, data)
    {
      taken := 0;
      if def.isFirmware && IsOta(data) {
        if OtaTag(data) != def.tagName {
          if !req.force {
            err := WrongDevice;
            state := FlstError;
          }
        }
        if state != FlstError && req.postLen > def.fwSize * 2 + HEADER_SIZE {
          err := TooLarge;
          state := FlstError;
        }
        if state != FlstError {
          taken := HEADER_SIZE;
          if req.wantsUser1 {
            len, skip, state, address := OtaLen1(data), OtaLen2(data), FlstWrite, def.fw1Pos;
          } else {
            len, skip, state, address := OtaLen2(data), OtaLen1(data), FlstSkip, def.fw2Pos;
          }
        }
      } else if (def.isFirmware && IsBin(data)) || (!def.isFirmware && IsEspfs(data)) {
        if req.postLen > def.fwSize {
          err := TooLarge;
          state := FlstError;
        } else {
          len, address, state := req.postLen, def.fw1Pos, FlstWrite;
        }
      } else {
        err := InvalidType;
        state := FlstError;
      }
    }

    /** FLST_SKIP on the rest of the buffer: how many bytes it passes over. */
    method Skip(dataLen: nat) returns (taken: nat)
      requires Valid() && state.FlstSkip? && dataLen > 0
      modifies this
      ensures Valid() && taken <= dataLen
      ensures forall bs: seq<byte> :: |bs| == dataLen ==> Feed(old(View()), bs) == Feed(View(), bs[taken..])
      ensures taken == 0 ==> old(skip) == 0 && !state.FlstSkip? && !(state.FlstWrite? && len == 0)
      ensures !state.FlstStart?
    {
      ghost var u := View();
      if skip > dataLen {
        // nothing of this buffer is wanted
        skip := skip - dataLen;
        taken := dataLen;
      } else {
        // the rest of the buffer is wanted
        taken := skip;
        skip := 0;
        state := if len != 0 then FlstWrite else FlstDone;
      }
      forall bs: seq<byte> | |bs| == dataLen
        ensures Feed(u, bs) == Feed(View(), bs[taken..])
      {
        SkipStep(u, bs);
      }
    }

    /** FLST_WRITE on the rest of the buffer. */
    method Write(data: seq<byte>) returns (taken: nat)
      requires Valid() && state.FlstWrite? && |data| > 0
      modifies this, pageData
      ensures Valid() && taken <= |data|
      ensures Feed(old(View()), data) == Feed(View(), data[taken..])
      ensures taken == 0 ==> old(len) == 0 && !state.FlstWrite? && !(state.FlstSkip? && skip == 0)
      ensures !state.FlstStart?
    {
      hide Feed, Program, ErasedIfNew, PageOps;
      ghost var u := View();
      var lenLeft := PAGELEN - pagePos;
      if len < lenLeft {
        lenLeft := len;   // the last page may be a short one
      }
      WriteStep(u, data);
      if |data| < lenLeft {
        // the page stays unfinished
        CopyIn(data);
        len := len - |data|;
        taken := |data|;
      } else {
        // the page is complete
        CopyIn(data[..lenLeft]);
        len := len - lenLeft;
        taken := lenLeft;
        FlashPage();
      }
    }

    /** `cgiUploadFirmware` on one buffer of POST data, of which `received` bytes have come so far. */
    method Cgi(def: FlashDef, req: Request, buff: seq<byte>, received: nat) returns (r: CgiState, reply: Reply)
      requires Valid()
      requires state.FlstStart? && buff != [] ==> HeaderPresent(buff)
      modifies this, pageData
      ensures Valid()
      ensures View() == Call(old(View()), def, req, buff)
      ensures r == if req.postLen == received then Done else More
      ensures reply == if r.More? then NoReply
                       else Reply(if state.FlstError? then 400 else 200, state.FlstDone?, err)
    {
      hide Feed, Call, Begin, HeaderPresent;
      var at := 0;
      assert buff[0..] == buff;
      CallIsFeed(View(), def, req, buff);
      ghost var target := Call(View(), def, req, buff);
      ghost var starting := state.FlstStart?;
      while at < |buff|
        invariant at <= |buff| && Valid()
        invariant state.FlstStart? ==> at == 0 && starting && View() == old(View())
        invariant !state.FlstStart? ==> Feed(View(), buff[at..]) == target
        invariant at == |buff| ==> View() == target
        decreases |buff| - at, if state.FlstStart? then 2
          else if (state.FlstSkip? && skip == 0) || (state.FlstWrite? && len == 0) then 1 else 0
      {
        ghost var rest := buff[at..];
        var taken;
        if state.FlstStart? {
          taken := Start(def, req, buff);
        } else if state.FlstSkip? {
          taken := Skip(|buff| - at);
          assert rest[taken..] == buff[at + taken..];
        } else if state.FlstWrite? {
          taken := Write(buff[at..]);
          assert rest[taken..] == buff[at + taken..];
        } else {
          taken := |buff| - at;   // what follows a finished or a rejected upload
          NothingLeftToDo(View(), rest);
        }
        at := at + taken;
        assert at == |buff| ==> buff[at..] == [];
      }
      if req.postLen == received {
        r := Done;
        reply := Reply(if state.FlstError? then 400 else 200, state.FlstDone?, err);
      } else {
        r, reply := More, NoReply;
      }
    }
  }

  lemma CallIsFeed(u: Upload, def: FlashDef, req: Request, piece: seq<byte>)
    requires u.Valid() && (u.state.FlstStart? ==> u.len == 0)
    requires u.state.FlstStart? && piece != [] ==> HeaderPresent(piece)
    ensures piece == [] ==> Call(u, def, req, piece) == u
    ensures !u.state.FlstStart? ==> Call(u, def, req, piece) == Feed(u, piece)
    ensures u.state.FlstStart? && piece != [] ==>
      var (v, n) := Begin(u, def, req, piece); Call(u, def, req, piece) == Feed(v, piece[n..])
    ensures forall v: Upload :: v.Valid() ==> Feed(v, []) == v
  {
  }

  lemma {:induction false} NothingLeftToDo(u: Upload, bs: seq<byte>)
    requires u.Valid() && !u.state.FlstSkip? && !u.state.FlstWrite?
    ensures Feed(u, bs) == u
    decreases |bs|
  {
    if |bs| > 0 {
      NothingLeftToDo(u, bs[1..]);
    }
  }

  /** Skipping at once what the machine skips byte by byte. */
  lemma {:induction false} SkipMany(u: Upload, n: nat, bs: seq<byte>)
    requires u.Valid() && u.state.FlstSkip? && n <= |bs| && 0 < n <= u.skip
    ensures Feed(u, bs) == Feed(if n == u.skip then u.(skip := 0, state := AfterSkip(u))
      else u.(skip := u.skip - n), bs[n..])
    decreases n
  {
    if n > 1 {
      SkipMany(u.(skip := u.skip - 1), n - 1, bs[1..]);
      assert bs[1..][n - 1..] == bs[n..];
    }
  }

  lemma SkipStep(u: Upload, bs: seq<byte>)
    requires u.Valid() && u.state.FlstSkip? && |bs| > 0
    ensures u.skip > |bs| ==> Feed(u, bs) == Feed(u.(skip := u.skip - |bs|), bs[|bs|..])
    ensures u.skip <= |bs| ==> Feed(u, bs) == Feed(u.(skip := 0, state := AfterSkip(u)), bs[u.skip..])
  {
    if u.skip == 0 {
      assert bs[0..] == bs;
      assert Feed1(u, bs[0]) == Feed1(u.(state := AfterSkip(u)), bs[0]);
    } else {
      SkipMany(u, if u.skip > |bs| then |bs| else u.skip, bs);
    }
  }

  /** Filling the page at once: n bytes that do not complete it. */
  lemma {:induction false} FillMany(u: Upload, n: nat, bs: seq<byte>)
    requires u.Valid() && u.state.FlstWrite? && n <= |bs|
    requires |u.pageData| + n < PAGELEN && n < u.len
    ensures Feed(u, bs) == Feed(u.(pageData := u.pageData + bs[..n], len := u.len - n), bs[n..])
    decreases n
  {
    if n == 0 {
      assert u.pageData + bs[..0] == u.pageData && bs[0..] == bs;
    } else {
      var v := u.(pageData := u.pageData + [bs[0]], len := u.len - 1);
      assert Feed1(u, bs[0]) == v;
      FillMany(v, n - 1, bs[1..]);
      assert u.pageData + [bs[0]] + bs[1..][..n - 1] == u.pageData + bs[..n];
      assert bs[1..][n - 1..] == bs[n..];
    }
  }

  lemma WriteStep(u: Upload, data: seq<byte>)
    requires u.Valid() && u.state.FlstWrite? && |data| > 0
    ensures var lenLeft := if u.len < PAGELEN - |u.pageData| then u.len else PAGELEN - |u.pageData|;
            if |data| < lenLeft then
              Feed(u, data) == Feed(u.(pageData := u.pageData + data, len := u.len - |data|), data[|data|..])
            else
              Feed(u, data) == Feed(WritePage(u.(pageData := u.pageData + data[..lenLeft], len := u.len - lenLeft)),
                  data[lenLeft..])
  {
    hide Program, ErasedIfNew, PageOps, WritePage, Feed;
    var lenLeft := if u.len < PAGELEN - |u.pageData| then u.len else PAGELEN - |u.pageData|;
    if |data| < lenLeft {
      ShortData(u, data);
    } else if lenLeft == 0 {
      NoData(u, data);
      EmptyPage(u, data);
    } else {
      FillPage(u, data, lenLeft);
    }
  }

  lemma ShortData(u: Upload, data: seq<byte>)
    requires u.Valid() && u.state.FlstWrite? && |u.pageData| + |data| < PAGELEN && |data| < u.len
    ensures Feed(u, data) == Feed(u.(pageData := u.pageData + data, len := u.len - |data|), data[|data|..])
  {
    hide Feed;
    FillMany(u, |data|, data);
    assert data[..|data|] == data;
  }

  lemma NoData(u: Upload, data: seq<byte>)
    ensures u.(pageData := u.pageData + data[..0], len := u.len - 0) == u && data[0..] == data
  {
    assert u.pageData + data[..0] == u.pageData;
  }

  lemma EmptyPage(u: Upload, data: seq<byte>)
    requires u.Valid() && u.state.FlstWrite? && |data| > 0 && u.len == 0
    ensures Feed(u, data) == Feed(WritePage(u), data)
  {
    hide Program, ErasedIfNew, PageOps, Feed;
    assert Settle(WritePage(u)) == WritePage(u);
    FeedFirst(u, data);
    FeedFirst(WritePage(u), data);
  }

  lemma FeedFirst(u: Upload, data: seq<byte>)
    requires u.Valid() && |data| > 0
    ensures Feed(u, data) == Feed(Feed1(u, data[0]), data[1..])
  {
  }

  lemma FillPage(u: Upload, data: seq<byte>, n: nat)
    requires u.Valid() && u.state.FlstWrite? && 0 < n <= |data|
    requires n <= u.len && |u.pageData| + n <= PAGELEN && (n == u.len || |u.pageData| + n == PAGELEN)
    ensures Feed(u, data) == Feed(WritePage(u.(pageData := u.pageData + data[..n], len := u.len - n)), data[n..])
  {
    hide Feed, WritePage, Feed1, Settle;
    var last, w := data[n - 1..], u.(pageData := u.pageData + data[..n], len := u.len - n);
    AlmostFull(u, data, n);
    var v := u.(pageData := u.pageData + data[..n - 1], len := u.len - (n - 1));
    OneMore(u.pageData, data, n);
    LastByte(v, data[n - 1], w);
    FeedFirst(v, last);
    assert last[0] == data[n - 1] && last[1..] == data[n..];
  }

  lemma OneMore(page: seq<byte>, data: seq<byte>, n: nat)
    requires 0 < n <= |data|
    ensures page + data[..n - 1] + [data[n - 1]] == page + data[..n]
  {
  }

  lemma AlmostFull(u: Upload, data: seq<byte>, n: nat)
    requires u.Valid() && u.state.FlstWrite? && 0 < n <= |data| && n <= u.len && |u.pageData| + n <= PAGELEN
    ensures var v := u.(pageData := u.pageData + data[..n - 1], len := u.len - (n - 1));
            v.Valid() && Feed(u, data) == Feed(v, data[n - 1..])
  {
    hide Feed;
    FillMany(u, n - 1, data);
  }

  lemma LastByte(v: Upload, b: byte, w: Upload)
    requires v.Valid() && v.state.FlstWrite? && v.len > 0 && (v.len == 1 || |v.pageData| == PAGELEN - 1)
    requires w == v.(pageData := v.pageData + [b], len := v.len - 1)
    ensures Feed1(v, b) == WritePage(w)
  {
    hide WritePage;
  }
}
