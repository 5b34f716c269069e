/**
 The firmware upload of `cgiflash.c` as a machine on values: the header is looked at once, and
 then every byte of the POST data is one step.
 */
module FlashUploadSpec {
  import opened Bytes
  import opened NorFlash

  const PAGELEN: nat := 64
  const HEADER_SIZE: nat := 40

  datatype State = FlstStart | FlstWrite | FlstSkip | FlstDone | FlstError

  datatype Error = PrematureEnd | WrongDevice | TooLarge | InvalidType

  /** `CgiUploadFlashDef`. */
  datatype FlashDef = FlashDef(isFirmware: bool, fw1Pos: nat, fw2Pos: nat, fwSize: nat, tagName: seq<byte>)

  /** What else the upload asks for: the length of the POST data, which of the two images the
      boot loader wants next, and whether the `force` argument is given and not zero. */
  datatype Request = Request(postLen: nat, wantsUser1: bool, force: bool)

  datatype Upload = Upload(
    state: State, pageData: seq<byte>,   // pageData[..pagePos]
    address: nat, len: nat, skip: nat, err: Error,
    flash: seq<byte>, ops: seq<FlashOp>)
  {
    predicate Valid() {
      |pageData| < PAGELEN && (!state.FlstWrite? || len == 0 ==> pageData == [])
    }
  }

  function Initial(flash: seq<byte>): Upload {
    Upload(FlstStart, [], 0, 0, 0, PrematureEnd, flash, [])
  }

  // ---------------------------------------------------------------- headers

  const EHUG: seq<byte> := [69, 72, 85, 71]
  const ESFS: seq<byte> := [69, 83, 102, 115]

  predicate IsOta(data: seq<byte>) { |data| >= 4 && data[..4] == EHUG }

  function OtaTag(data: seq<byte>): seq<byte>
    requires |data| >= HEADER_SIZE
  {
    CString(data[4..31])
  }

  function OtaLen1(data: seq<byte>): nat
    requires |data| >= HEADER_SIZE
  {
    LittleEndian32(data[32..36])
  }

  function OtaLen2(data: seq<byte>): nat
    requires |data| >= HEADER_SIZE
  {
    LittleEndian32(data[36..40])
  }

  /** `checkBinHeader`. */
  predicate IsBin(data: seq<byte>)
    requires |data| >= 12
  {
    && data[0] == 0xEA
    && data[1] == 4 && data[2] <= 3 && data[3] <= 0x40
    && data[6] == 0x10 && data[7] == 0x40
    && data[8] == 0 && data[9] == 0 && data[10] == 0 && data[11] == 0
  }

  /** `checkEspfsHeader`. */
  predicate IsEspfs(data: seq<byte>)
    requires |data| >= 12
  {
    data[..4] == ESFS
  }

  /** What the code takes for granted about the first buffer: the header of whatever is uploaded
      is in it, and the two lengths of an OTA header are not negative as 32-bit integers. */
  predicate HeaderPresent(data: seq<byte>) {
    && |data| >= 12
    && (IsOta(data) ==>
          |data| >= HEADER_SIZE && OtaLen1(data) < 0x8000_0000 && OtaLen2(data) < 0x8000_0000)
  }

  /** The branch for FLST_START, and how many bytes of the data it takes. */
  function Begin(u: Upload, def: FlashDef, req: Request, data: seq<byte>): (r: (Upload, nat))
    requires u.Valid() && u.state.FlstStart? && u.len == 0 && HeaderPresent(data)
    ensures r.0.Valid() && r.1 <= |data| && !r.0.state.FlstStart?
    ensures r.0.flash == u.flash && r.0.ops == u.ops
  {
    if def.isFirmware && IsOta(data) then
      if OtaTag(data) != def.tagName && !req.force then
        (u.(err := WrongDevice, state := FlstError), 0)
      else if req.postLen > def.fwSize * 2 + HEADER_SIZE then
        (u.(err := TooLarge, state := FlstError), 0)
      else if req.wantsUser1 then
        (u.(len := OtaLen1(data), skip := OtaLen2(data), state := FlstWrite, address := def.fw1Pos), HEADER_SIZE)
      else
        (u.(len := OtaLen2(data), skip := OtaLen1(data), state := FlstSkip, address := def.fw2Pos), HEADER_SIZE)
    else if (def.isFirmware && IsBin(data)) || (!def.isFirmware && IsEspfs(data)) then
      if req.postLen > def.fwSize then
        (u.(err := TooLarge, state := FlstError), 0)
      else
        (u.(len := req.postLen, address := def.fw1Pos, state := FlstWrite), 0)
    else
      (u.(err := InvalidType, state := FlstError), 0)
  }

  // ---------------------------------------------------------------- bytes

  /** The page goes to the chip, and the upload to its next state if that was the last one. */
  function WritePage(u: Upload): (r: Upload)
    requires |u.pageData| <= PAGELEN && (u.len > 0 || u.state.FlstWrite?)
    ensures u.state.FlstWrite? ==> r.Valid()
  {
    var erased := ErasedIfNew(u.flash, u.address);
    var t := u.(
      flash := Program(erased, u.address, u.pageData), ops := PageOps(u.ops, u.address, |u.pageData|),
      address := u.address + PAGELEN, pageData := []);
    if u.len == 0 then t.(state := AfterWrite(u)) else t
  }

  function AfterWrite(u: Upload): State { if u.skip != 0 then FlstSkip else FlstDone }

  function AfterSkip(u: Upload): State { if u.len != 0 then FlstWrite else FlstDone }

  /** States with nothing left to do are left when the next byte comes. */
  function Settle(u: Upload): (r: Upload)
    requires u.Valid()
    ensures r.Valid()
    ensures (r.state.FlstWrite? ==> r.len > 0) && (r.state.FlstSkip? ==> r.skip > 0)
  {
    if u.state.FlstSkip? && u.skip == 0 then u.(state := AfterSkip(u))
    else if u.state.FlstWrite? && u.len == 0 then WritePage(u)
    else u
  }

  function Feed1(u: Upload, b: byte): (r: Upload)
    requires u.Valid()
    ensures r.Valid() && (r.state.FlstStart? ==> u.state.FlstStart?)
  {
    var v := Settle(u);
    match v.state
    case FlstSkip =>
      if v.skip == 1 then v.(skip := 0, state := AfterSkip(v)) else v.(skip := v.skip - 1)
    case FlstWrite =>
      var w := v.(pageData := v.pageData + [b], len := v.len - 1);
      if |w.pageData| == PAGELEN || w.len == 0 then WritePage(w) else w
    case _ => v
  }

  function Feed(u: Upload, bs: seq<byte>): (r: Upload)
    requires u.Valid()
    ensures r.Valid() && (r.state.FlstStart? ==> u.state.FlstStart?)
    decreases |bs|
  {
    if |bs| == 0 then u else Feed(Feed1(u, bs[0]), bs[1..])
  }

  lemma {:induction false} FeedSplit(u: Upload, a: seq<byte>, b: seq<byte>)
    requires u.Valid()
    ensures Feed(u, a + b) == Feed(Feed(u, a), b)
    decreases |a|
  {
    if |a| == 0 {
      assert a + b == b;
    } else {
      assert (a + b)[1..] == a[1..] + b;
      FeedSplit(Feed1(u, a[0]), a[1..], b);
    }
  }

  /** One call of the CGI function with a buffer of POST data. */
  function Call(u: Upload, def: FlashDef, req: Request, piece: seq<byte>): (r: Upload)
    requires u.Valid() && (u.state.FlstStart? ==> u.len == 0)
    requires u.state.FlstStart? && piece != [] ==> HeaderPresent(piece)
    ensures r.Valid() && (r.state.FlstStart? ==> r == u)
  {
    if piece == [] then u
    else if u.state.FlstStart? then
      var (v, n) := Begin(u, def, req, piece);
      Feed(v, piece[n..])
    else Feed(u, piece)
  }

  /** A whole upload, call by call; the header is in the first buffer. */
  function Calls(u: Upload, def: FlashDef, req: Request, pieces: seq<seq<byte>>): (r: Upload)
    requires u.Valid()
    requires u.state.FlstStart? ==> u.len == 0 && |pieces| > 0 && HeaderPresent(pieces[0])
    ensures r.Valid()
    decreases |pieces|
  {
    if |pieces| == 0 then u else Calls(Call(u, def, req, pieces[0]), def, req, pieces[1..])
  }
}
