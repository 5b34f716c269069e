/**
 The send path of `httpd.c` on values: the send buffer with its chunk header, the backlog, and a
 platform that takes one packet at a time.
 */
module HttpdSpec {
  import opened Bytes
  import opened Wrappers

  const MAX_SENDBUFF_LEN: nat := 2048
  const MAX_BACKLOG_SIZE: nat := 4096

  const CRLF: seq<byte> := [13, 10]
  const EMPTY_CHUNK_HEADER: seq<byte> := [48, 48, 48, 48, 13, 10]
  const LAST_CHUNK: seq<byte> := [48, 13, 10, 13, 10]

  /** A flushed buffer, and whether it was kept or thrown away because the backlog was full. */
  datatype Flushed = Flushed(data: seq<byte>, kept: bool)

  datatype Conn = Conn(
    hasCgi: bool,                 // conn->cgi != NULL
    buff: seq<byte>,              // sendBuff[..sendBuffLen]
    chunkHdr: Option<nat>,        // where in the buffer the open chunk's header is
    backlog: seq<seq<byte>>, backlogSize: int,
    chunked: bool, sendingBody: bool, disconAfterSent: bool,
    // the platform, and the history of the connection
    inFlight: Option<seq<byte>>, delivered: seq<seq<byte>>, closed: bool,
    log: seq<Flushed>)
  {
    predicate InBody() { chunked && sendingBody }

    predicate Valid() {
      && |buff| <= MAX_SENDBUFF_LEN
      && (chunkHdr.Some? ==> chunkHdr.value + 6 < |buff|)
    }

    /** The platform takes a packet exactly when it is idle. */
    predicate Idle() { inFlight.None? }
  }

  /** The state after `httpdConnectCb`. */
  const CONNECTED: Conn :=
    Conn(false, [], None, [], 0, false, false, false, None, [], false, [])

  // ---------------------------------------------------------------- httpdSend

  predicate Accepts(c: Conn, data: seq<byte>) {
    && data != []
    && |c.buff| + |data| + (if c.InBody() && c.chunkHdr.None? then 6 else 0) <= MAX_SENDBUFF_LEN
  }

  function Send(c: Conn, data: seq<byte>): (r: Conn)
    requires c.Valid()
    ensures r.Valid()
  {
    if !Accepts(c, data) then c
    else if c.InBody() && c.chunkHdr.None? then
      c.(chunkHdr := Some(|c.buff|), buff := c.buff + EMPTY_CHUNK_HEADER + data)
    else
      c.(buff := c.buff + data)
  }

  lemma SendIntoChunk(c: Conn, data: seq<byte>)
    requires c.Valid() && c.chunkHdr.Some?
    ensures Send(c, data) == c.(buff := Send(c, data).buff)
    ensures |c.buff| <= |Send(c, data).buff|
  {
  }

  // ---------------------------------------------------------------- httpdFlushSendBuffer

  function HexNibble(val: int): byte {
    var v := val % 16;
    if v < 10 then 48 + v else 65 + (v - 10)
  }

  function HexFour(len: int): (r: seq<byte>)
    ensures |r| == 4
  {
    [HexNibble(len / 4096), HexNibble(len / 256), HexNibble(len / 16), HexNibble(len)]
  }

  /** The open chunk, finished: CR LF behind it if the buffer still takes them, and its length
      written into its header. */
  function CloseChunk(c: Conn): (r: Conn)
    requires c.Valid()
    ensures r.Valid()
    ensures r == c.(buff := r.buff, chunkHdr := None)
  {
    if c.chunkHdr.None? then c
    else
      var p := c.chunkHdr.value;
      var full := Send(c, CRLF).buff;
      var len := |full| - p - 8;
      c.(buff := full[..p] + HexFour(len) + full[p + 4..], chunkHdr := None)
  }

  /** The terminating chunk is copied with `strcpy` and no check of the room, its NUL included. */
  predicate TerminatorFits(c: Conn)
    requires c.Valid()
  {
    c.InBody() && !c.hasCgi ==> |CloseChunk(c).buff| + |LAST_CHUNK| + 1 <= MAX_SENDBUFF_LEN
  }

  function Terminate(c: Conn): (r: Conn)
    ensures r == c.(buff := r.buff)
  {
    if c.InBody() && !c.hasCgi then c.(buff := c.buff + LAST_CHUNK) else c
  }

  /** Hand the buffer to the platform, or to the backlog, or to nobody. */
  function Emit(c: Conn): Conn {
    if c.buff == [] then c
    else if c.Idle() then
      c.(inFlight := Some(c.buff), log := c.log + [Flushed(c.buff, true)], buff := [])
    else if c.backlogSize + |c.buff| > MAX_BACKLOG_SIZE then
      c.(log := c.log + [Flushed(c.buff, false)], buff := [])
    else
      c.(backlog := c.backlog + [c.buff], backlogSize := c.backlogSize + |c.buff|,
         log := c.log + [Flushed(c.buff, true)], buff := [])
  }

  function Flush(c: Conn): (r: Conn)
    requires c.Valid() && TerminatorFits(c)
    ensures r.Valid() && r.buff == [] && r.chunkHdr.None?
  {
    Emit(Terminate(CloseChunk(c)))
  }

  // ---------------------------------------------------------------- httpdCgiIsDone, httpdSentCb

  function CgiIsDone(c: Conn): (r: Conn)
    requires c.Valid() && TerminatorFits(c.(hasCgi := false))
    ensures r.Valid()
  {
    var d := c.(hasCgi := false);
    if c.chunked then
      Flush(d).(chunked := false, sendingBody := false, disconAfterSent := false)
    else
      d.(disconAfterSent := true)
  }

  /** What a CGI function, or the code that calls one, does to the send path. */
  datatype Op =
    | Parsed(http11: bool)        // httpdParseHeader: the first line, or a `Connection: close`
    | ChooseCgi                   // httpdProcessRequest found a CGI function
    | NoTransferEncoding          // httpdDisableTransferEncoding
    | EndHeaders                  // httpdEndHeaders, after its httpdSend
    | SendOp(data: seq<byte>)
    | FlushOp
    | CgiDone

  predicate Safe(c: Conn, op: Op)
    requires c.Valid()
  {
    match op
    case FlushOp => TerminatorFits(c)
    case CgiDone => TerminatorFits(c.(hasCgi := false))
    case _ => true
  }

  function Do(c: Conn, op: Op): (r: Conn)
    requires c.Valid() && Safe(c, op)
    ensures r.Valid()
  {
    match op
    case Parsed(http11) => c.(chunked := http11)
    case ChooseCgi => c.(hasCgi := true)
    case NoTransferEncoding => c.(chunked := false)
    case EndHeaders => c.(sendingBody := true)
    case SendOp(data) => Send(c, data)
    case FlushOp => Flush(c)
    case CgiDone => CgiIsDone(c)
  }

  predicate SafeAll(c: Conn, ops: seq<Op>)
    requires c.Valid()
    decreases |ops|
  {
    |ops| > 0 ==> Safe(c, ops[0]) && SafeAll(Do(c, ops[0]), ops[1..])
  }

  function DoAll(c: Conn, ops: seq<Op>): (r: Conn)
    requires c.Valid() && SafeAll(c, ops)
    ensures r.Valid()
    decreases |ops|
  {
    if |ops| == 0 then c else DoAll(Do(c, ops[0]), ops[1..])
  }

  // ---------------------------------------------------------------- events

  /** Data arriving (`httpdRecvCb`), or a packet going out (`httpdSentCb`), with what the CGI
      function called by it does, and whether it then says that it is done. */
  datatype Event = Received(ops: seq<Op>) | PacketSent(ops: seq<Op>, done: bool)

  /** The packet in flight has arrived; the platform is idle when it calls `httpdSentCb`. */
  function Arrived(c: Conn): Conn
    requires c.inFlight.Some?
  {
    c.(delivered := c.delivered + [c.inFlight.value], inFlight := None)
  }

  /** The head of the backlog goes to the platform, whose answer is not looked at. */
  function SendHead(c: Conn): Conn
    requires |c.backlog| > 0
  {
    var d := c.(backlog := c.backlog[1..], backlogSize := c.backlogSize - |c.backlog[0]|);
    if c.Idle() then d.(inFlight := Some(c.backlog[0])) else d
  }

  function FreshBuffer(c: Conn): (r: Conn)
    requires c.Valid() && c.chunkHdr.None?
    ensures r.Valid()
  {
    c.(buff := [])
  }

  /** The ops of an event, `httpdCgiIsDone` if the CGI is done, and the flush at the end. */
  function Script(ops: seq<Op>, done: bool): seq<Op> {
    ops + (if done then [CgiDone] else []) + [FlushOp]
  }

  predicate CallsCgi(c: Conn) { c.backlog == [] && !c.disconAfterSent && c.hasCgi }

  /** The event can happen now, and none of its flushes overruns the buffer. */
  predicate Enabled(c: Conn, e: Event)
    requires c.Valid()
  {
    && !c.closed
    && c.chunkHdr.None?
    && match e
       case Received(_) => SafeAll(FreshBuffer(c), EventScript(e))
       case PacketSent(_, _) =>
         c.inFlight.Some? && (CallsCgi(c) ==> SafeAll(FreshBuffer(Arrived(c)), EventScript(e)))
  }

  function EventScript(e: Event): seq<Op> {
    match e
    case Received(ops) => Script(ops, false)
    case PacketSent(ops, done) => Script(ops, done)
  }

  function Step(c: Conn, e: Event): (r: Conn)
    requires c.Valid() && Enabled(c, e)
    ensures r.Valid()
  {
    match e
    case Received(ops) => DoAll(FreshBuffer(c), EventScript(e))
    case PacketSent(ops, done) =>
      var d := Arrived(c);
      if d.backlog != [] then SendHead(d)
      else if d.disconAfterSent then d.(closed := true)
      else if !d.hasCgi then d
      else DoAll(FreshBuffer(d), EventScript(e))
  }
}
