/**
 The send path of `httpd.c` as it runs: one fixed buffer per event, patched in place.
 */
module Httpd {
  import opened Bytes
  import opened Wrappers
  import opened HttpdSpec

  class Connection {
    var hasCgi: bool
    var sendBuff: array<byte>
    var sendBuffLen: nat
    var chunkHdr: int             // offset of the open chunk's header, or -1
    var backlog: seq<seq<byte>>
    var backlogSize: int
    var chunked: bool
    var sendingBody: bool
    var disconAfterSent: bool

    // The platform, which keeps one packet in flight, and the history.
    var inFlight: Option<seq<byte>>
    ghost var delivered: seq<seq<byte>>
    ghost var closed: bool
    ghost var log: seq<Flushed>

    ghost predicate Valid()
      reads this, sendBuff
    {
      && sendBuff.Length == MAX_SENDBUFF_LEN
      && sendBuffLen <= MAX_SENDBUFF_LEN
      && View().Valid()
    }

    ghost function View(): Conn
      requires sendBuffLen <= sendBuff.Length
      reads this, sendBuff
    {
      Conn(hasCgi, sendBuff[..sendBuffLen], if chunkHdr < 0 then None else Some(chunkHdr), backlog, backlogSize,
           chunked, sendingBody, disconAfterSent, inFlight, delivered, closed, log)
    }

    /** `httpdConnectCb`. */
    constructor ()
      ensures Valid() && fresh(sendBuff) && View() == CONNECTED
    {
      hasCgi, sendBuffLen, chunkHdr, backlog, backlogSize := false, 0, -1, [], 0;
      chunked, sendingBody, disconAfterSent, inFlight := false, false, false, None;
      delivered, closed, log := [], false, [];
      sendBuff := new byte[MAX_SENDBUFF_LEN](_ => 0);
      new;
      assert View().buff == [];
    }

    method CopyIn(src: seq<byte>, at: nat)
      requires at + |src| <= sendBuff.Length
      modifies sendBuff
      ensures sendBuff[..] == old(sendBuff[..at]) + src + old(sendBuff[at + |src|..])
    {
      for k := 0 to |src|
        invariant forall j :: at <= j < at + k ==> sendBuff[j] == src[j - at]
        invariant forall j :: 0 <= j < at || at + k <= j < sendBuff.Length ==> sendBuff[j] == old(sendBuff[j])
      {
        sendBuff[at + k] := src[k];
      }
      ghost var r := old(sendBuff[..at]) + src + old(sendBuff[at + |src|..]);
      assert forall j :: 0 <= j < |r| ==> sendBuff[j] == r[j];
    }

    /** `httpdSend`; true if the data was accepted. */
    method HttpdSend(data: seq<byte>) returns (ok: bool)
      requires Valid()
      modifies this, sendBuff
      ensures Valid() && sendBuff == old(sendBuff)
      ensures View() == Send(old(View()), data)
      ensures ok == Accepts(old(View()), data)
    {
      var len := |data|;
      if len == 0 {
        return false;
      }
      ghost var before := sendBuff[..sendBuffLen];
      if chunked && sendingBody && chunkHdr < 0 {
        if sendBuffLen + len + 6 > MAX_SENDBUFF_LEN {
          return false;
        }
        // a chunk opens with a header to be patched, copied with the NUL of the string
        chunkHdr := sendBuffLen;
        CopyIn(EMPTY_CHUNK_HEADER + [0], sendBuffLen);
        sendBuffLen := sendBuffLen + 6;
        assert sendBuff[..sendBuffLen] == before + EMPTY_CHUNK_HEADER;
      }
      if sendBuffLen + len > MAX_SENDBUFF_LEN {
        return false;
      }
      CopyIn(data, sendBuffLen);
      sendBuffLen := sendBuffLen + len;
      ok := true;
      assert sendBuff[..sendBuffLen] ==
        before + (if old(chunked && sendingBody && chunkHdr < 0) then EMPTY_CHUNK_HEADER else []) + data;
      assert before + [] == before;
    }

    /** `httpdPlatSendData`: the packet is taken when nothing is in flight. */
    method PlatSendData(data: seq<byte>) returns (ok: bool)
      modifies this`inFlight
      ensures ok == old(inFlight.None?)
      ensures inFlight == if ok then Some(data) else old(inFlight)
    {
      ok := inFlight.None?;
      if ok {
        inFlight := Some(data);
      }
    }

    /** The first part of `httpdFlushSendBuffer`: the open chunk gets its end and its size. */
    method FinishChunk()
      requires Valid()
      modifies this, sendBuff
      ensures Valid() && sendBuff == old(sendBuff)
      ensures View() == CloseChunk(old(View()))
    {
      hide HexFour, Send, Accepts;
      if chunkHdr >= 0 {
        SendIntoChunk(View(), CRLF);
        var ok := HttpdSend(CRLF);
        ghost var full := sendBuff[..sendBuffLen];
        var len := sendBuffLen - chunkHdr - 8;
        PatchHeader(chunkHdr, len);
        assert sendBuff[..sendBuffLen] == full[..chunkHdr] + HexFour(len) + full[chunkHdr + 4..];
        chunkHdr := -1;
      }
    }

    /** The size of the chunk overwrites the four digits of its header. */
    method PatchHeader(at: nat, len: int)
      requires at + 4 <= sendBuff.Length
      modifies sendBuff
      ensures sendBuff[..] == old(sendBuff[..at]) + HexFour(len) + old(sendBuff[at + 4..])
    {
      hide HexNibble;
      sendBuff[at] := HexNibble(len / 4096);
      sendBuff[at + 1] := HexNibble(len / 256);
      sendBuff[at + 2] := HexNibble(len / 16);
      sendBuff[at + 3] := HexNibble(len);
    }

    /** `httpdFlushSendBuffer`.  The caller sees to it that the terminating chunk fits. */
    method FlushSendBuffer()
      requires Valid() && TerminatorFits(View())
      modifies this, sendBuff
      ensures Valid() && sendBuff == old(sendBuff)
      ensures View() == Flush(old(View()))
    {
      FinishChunk();
      ghost var c := View();
      if chunked && sendingBody && !hasCgi {
        // the terminating chunk, copied with its NUL
        CopyIn(LAST_CHUNK + [0], sendBuffLen);
        sendBuffLen := sendBuffLen + 5;
        assert sendBuff[..sendBuffLen] == c.buff + LAST_CHUNK;
      }
      assert View() == Terminate(c);
      EmitBuffer();
    }

    /** The last part of `httpdFlushSendBuffer`: send, or put the packet in the backlog. */
    method EmitBuffer()
      requires Valid() && chunkHdr < 0
      modifies this
      ensures Valid() && sendBuff == old(sendBuff)
      ensures View() == Emit(old(View()))
    {
      if sendBuffLen != 0 {
        var packet := sendBuff[..sendBuffLen];
        var r := PlatSendData(packet);
        if !r {
          if backlogSize + sendBuffLen > MAX_BACKLOG_SIZE {
            log := log + [Flushed(packet, false)];
            sendBuffLen := 0;
            assert View().buff == [];
            return;
          }
          backlog := backlog + [packet];
          backlogSize := backlogSize + sendBuffLen;
        }
        log := log + [Flushed(packet, true)];
        sendBuffLen := 0;
      }
      assert View().buff == [];
    }

    /** `httpdCgiIsDone`. */
    method CgiIsDone()
      requires Valid() && TerminatorFits(View().(hasCgi := false))
      modifies this, sendBuff
      ensures Valid() && sendBuff == old(sendBuff)
      ensures View() == HttpdSpec.CgiIsDone(old(View()))
    {
      hide Flush, CloseChunk;
      hasCgi := false;
      assert View() == old(View()).(hasCgi := false);
      if chunked {
        FlushSendBuffer();
        chunked, sendingBody, disconAfterSent := false, false, false;
      } else {
        disconAfterSent := true;
      }
    }

    /** One thing that a CGI function or its caller does. */
    method Perform(op: Op)
      requires Valid() && Safe(View(), op)
      modifies this, sendBuff
      ensures Valid() && sendBuff == old(sendBuff)
      ensures View() == Do(old(View()), op)
    {
      match op
      case Parsed(http11) => chunked := http11;
      case ChooseCgi => hasCgi := true;
      case NoTransferEncoding => chunked := false;
      case EndHeaders => sendingBody := true;
      case SendOp(data) => var ok := HttpdSend(data);
      case FlushOp => FlushSendBuffer();
      case CgiDone => CgiIsDone();
    }

    method PerformAll(ops: seq<Op>)
      requires Valid() && SafeAll(View(), ops)
      modifies this, sendBuff
      ensures Valid() && sendBuff == old(sendBuff)
      ensures View() == DoAll(old(View()), ops)
      decreases |ops|
    {
      if |ops| > 0 {
        Perform(ops[0]);
        PerformAll(ops[1..]);
      }
    }

    /** `httpdRecvCb`, as far as sending is concerned. */
    method RecvCb(ops: seq<Op>)
      requires Valid() && Enabled(View(), Received(ops))
      modifies this, sendBuff
      ensures Valid() && fresh(sendBuff)
      ensures View() == Step(old(View()), Received(ops))
    {
      CallCgi(EventScript(Received(ops)));
    }

    /** `httpdSentCb`, called by the platform when the packet in flight has arrived. */
    method SentCb(ops: seq<Op>, done: bool)
      requires Valid() && Enabled(View(), PacketSent(ops, done))
      modifies this, sendBuff
      ensures Valid() && (sendBuff == old(sendBuff) || fresh(sendBuff))
      ensures View() == Step(old(View()), PacketSent(ops, done))
    {
      hide DoAll, SafeAll;
      delivered, inFlight := delivered + [inFlight.value], None;
      ghost var c := View();
      assert c == Arrived(old(View()));
      if backlog != [] {
        // the next packet of the backlog goes first
        var r := PlatSendData(backlog[0]);
        backlogSize := backlogSize - |backlog[0]|;
        backlog := backlog[1..];
        return;
      }
      if disconAfterSent {
        closed := true;
        return;
      }
      if hasCgi {
        CallCgi(EventScript(PacketSent(ops, done)));
      }
    }

    /** A buffer for the CGI function, what is done with it, and the flush. */
    method CallCgi(script: seq<Op>)
      requires Valid() && chunkHdr < 0 && SafeAll(FreshBuffer(View()), script)
      modifies this, sendBuff
      ensures Valid() && fresh(sendBuff)
      ensures View() == DoAll(FreshBuffer(old(View())), script)
    {
      hide DoAll, SafeAll;
      ghost var c := View();
      sendBuff := new byte[MAX_SENDBUFF_LEN](_ => 0);
      sendBuffLen := 0;
      assert View() == FreshBuffer(c);
      PerformAll(script);
    }
  }
}
