/**
 `cgiEspFsTemplate` of `httpdespfs.c`: a template sent a chunk at a time, with the place kept when the
 callback wants to send more for a token.
 */
module Template {
  import opened Bytes
  import opened TemplateSpec

  const TEMPLATE_CHUNK: nat := 1024

  datatype CgiState = More | Done

  class TplData {
    const file: seq<byte>       // the opened file
    var filePos: nat
    const token: array<byte>
    var tokenPos: int
    const buff: array<byte>
    var chunkResume: bool
    var buffLen: nat
    var buffX: nat
    var buffSp: nat
    var buffE: nat

    // The callback: which token it is at, and how many parts of its answer it has sent.
    const answers: Answers
    var tokenCount: nat
    var partsSent: nat
    var out: seq<byte>          // everything handed to httpdSend

    ghost predicate Shape()
      reads this
    {
      && token.Length == TOKEN_MAX + 1 && buff.Length == TEMPLATE_CHUNK + 1 && token != buff
      && filePos <= |file|
      && -1 <= tokenPos <= TOKEN_MAX + 1
    }

    /** The characters collected for the current token. */
    ghost function Token(): seq<byte>
      requires Shape()
      reads this, token
    {
      if tokenPos < 0 then [] else token[..tokenPos]
    }

    /** The name of a token that was closed: the NUL behind it is counted in `tokenPos`. */
    ghost function Name(): seq<byte>
      requires Shape()
      reads this, token
    {
      if tokenPos < 1 then [] else token[..tokenPos - 1]
    }

    /** The parser at position `pos` of the file, with the text `held` not sent yet. */
    ghost predicate Between(pos: nat, held: seq<byte>)
      requires Shape()
      reads this, token
    {
      && !chunkResume && partsSent == 0
      && tokenPos <= TOKEN_MAX
      && (tokenPos >= 0 ==> held == [])
      && Rendering(file, answers, out, held, tokenPos >= 0, Token(), pos, tokenCount)
    }

    /** In the middle of a token's answer: `pos` is its closing percent sign. */
    ghost predicate InAnswer(pos: nat)
      requires Shape()
      reads this, token
    {
      && 2 <= tokenPos
      && pos < |file| && file[pos] == PERCENT
      && Answering(file, answers, out, Name(), pos, tokenCount, partsSent)
    }

    /** The current chunk, `len` bytes of it, ends where the file was read up to. */
    ghost predicate Chunk(len: nat)
      requires Shape()
      reads this, buff
    {
      ChunkOf(file, filePos, buff[..], len)
    }

    /** Between calls: what was sent and what is still to come make up the rendered file. */
    ghost predicate Valid()
      reads this, token, buff
    {
      && Shape()
      && if chunkResume then
           && Chunk(buffLen) && buffX < buffLen && buffSp == 0 && buffE <= buffLen
           && InAnswer(filePos - buffLen + buffX)
         else
           Between(filePos, [])
    }

    /** The first call: the file is open and the headers are sent. */
    constructor (contents: seq<byte>, callback: Answers)
      ensures Valid() && fresh(token) && fresh(buff) && file == contents && answers == callback
    {
      file, filePos, answers := contents, 0, callback;
      token := new byte[TOKEN_MAX + 1](_ => 0);
      buff := new byte[TEMPLATE_CHUNK + 1](_ => 0);
      chunkResume, tokenPos := false, -1;
      buffLen, buffX, buffSp, buffE, tokenCount, partsSent, out := 0, 0, 0, 0, 0, 0, [];
      new;
      RenderingStarts(file, answers);
    }

    /** The application's callback on a token: it sends its next part, and says whether it wants to
        send more in this token's place. */
    method TplCallback(name: seq<byte>) returns (more: bool)
      requires partsSent < |answers(tokenCount, name).Parts()|
      modifies this`out, this`partsSent, this`tokenCount
      ensures var parts := answers(old(tokenCount), name).Parts();
              && out == old(out) + parts[old(partsSent)]
              && more == (old(partsSent) + 1 < |parts|)
              && partsSent == (if more then old(partsSent) + 1 else 0)
              && tokenCount == (if more then old(tokenCount) else old(tokenCount) + 1)
    {
      var parts := answers(tokenCount, name).Parts();
      out := out + parts[partsSent];
      more := partsSent + 1 < |parts|;
      if more {
        partsSent := partsSent + 1;
      } else {
        partsSent := 0;
        tokenCount := tokenCount + 1;
      }
    }

    /** `espFsRead` into the buffer. */
    method ReadChunk() returns (len: nat)
      requires Shape()
      modifies this`filePos, buff
      ensures Shape() && Chunk(len)
      ensures filePos == old(filePos) + len
    {
      len := TEMPLATE_CHUNK;
      if len > |file| - filePos {
        len := |file| - filePos;
      }
      for k := 0 to len
        invariant filePos == old(filePos) && buff[..k] == file[filePos..filePos + k]
      {
        buff[k] := file[filePos + k];
        assert buff[..k + 1] == buff[..k] + [buff[k]];
      }
      filePos := filePos + len;
    }

    /** A character of ordinary text at `buff[x]`, which is character `pos` of the file. */
    method TextCharacter(x: nat, ghost pos: nat, e: nat, sp: nat) returns (sp': nat)
      requires Shape() && tokenPos == -1 && x < TEMPLATE_CHUNK && e + sp == x
      requires pos < |file| && buff[x] == file[pos]
      requires Between(pos, buff[e..e + sp])
      modifies this`out, this`tokenPos
      ensures Shape() && (tokenPos == -1 ==> e + sp' == x + 1) && (tokenPos != -1 ==> sp' == 0)
      ensures Between(pos + 1, buff[e..e + sp'])
    {
      hide Rendering;
      ghost var held := buff[e..e + sp];
      if buff[x] == PERCENT {
        RenderingOpens(file, answers, out, held, [], pos, tokenCount);
        // the text in front of the token leaves
        if sp != 0 {
          out := out + buff[e..e + sp];
        }
        assert out == old(out) + held;
        sp' := 0;
        tokenPos := 0;
        assert Token() == [] && buff[e..e] == [];
      } else {
        RenderingText(file, answers, out, held, [], pos, tokenCount);
        sp' := sp + 1;
        assert buff[e..e + sp'] == held + [file[pos]];
      }
    }

    /** A character of a token. */
    method TokenCharacter(x: nat, ghost pos: nat)
      requires Shape() && tokenPos >= 0 && x < TEMPLATE_CHUNK && Between(pos, [])
      requires pos < |file| && buff[x] == file[pos] && file[pos] != PERCENT
      modifies this`tokenPos, token
      ensures Shape() && tokenPos >= 0 && Between(pos + 1, [])
    {
      hide Rendering;
      ghost var t := Token();
      RenderingToken(file, answers, out, t, pos, tokenCount);
      if tokenPos < TOKEN_MAX {
        token[tokenPos] := buff[x];
        tokenPos := tokenPos + 1;
      }
      assert Token() == Cut(t + [file[pos]]);
    }

    /** The percent sign at the end of a token, met for the first time. */
    method CloseToken(ghost pos: nat) returns (isToken: bool)
      requires Shape() && tokenPos >= 0 && Between(pos, [])
      requires pos < |file| && file[pos] == PERCENT
      modifies this`tokenPos, this`out, token
      ensures Shape()
      ensures isToken ==> InAnswer(pos)
      ensures !isToken ==> tokenPos == -1 && Between(pos + 1, [])
    {
      hide Rendering, Answering;
      ghost var t := Token();
      if tokenPos == 0 {
        // an empty token stands for a percent sign
        RenderingEscape(file, answers, out, [], pos, tokenCount);
        out := out + [PERCENT];
        tokenPos := -1;
        isToken := false;
      } else {
        RenderingCloses(file, answers, out, t, pos, tokenCount);
        token[tokenPos] := 0;   // a C string for the callback
        tokenPos := tokenPos + 1;
        isToken := true;
        assert Name() == t;
      }
    }

    /** One call of the callback for the token that ends at `pos`. */
    method AnswerToken(ghost pos: nat) returns (more: bool)
      requires Shape() && InAnswer(pos)
      modifies this`tokenPos, this`out, this`partsSent, this`tokenCount, this`chunkResume
      ensures Shape() && more == chunkResume
      ensures more ==>
        InAnswer(pos) && partsSent == old(partsSent) + 1 && tokenCount == old(tokenCount) && tokenPos == old(tokenPos)
      ensures !more ==> tokenPos == -1 && Between(pos + 1, [])
    {
      hide Rendering;
      AnsweringPart(file, answers, out, Name(), [], pos, tokenCount, partsSent);
      chunkResume := false;
      more := TplCallback(token[..tokenPos - 1]);
      if more {
        chunkResume := true;
      } else {
        tokenPos := -1;
      }
    }

    /** The scanning loop at `buff[x]`, with the text `buff[e..e + sp]` not sent yet. */
    ghost predicate Scanning(len: nat, x: nat, e: nat, sp: nat)
      reads this, token, buff
    {
      && Shape() && Chunk(len)
      && x <= len && e + sp <= len
      && (tokenPos != -1 ==> sp == 0)
      && if chunkResume then
           x < len && sp == 0 && InAnswer(filePos - len + x)
         else
           Between(filePos - len + x, buff[e..e + sp]) && (tokenPos == -1 ==> e + sp == x)
    }

    /** The body of the scanning loop; it stops when the callback wants to send more. */
    method OneCharacter(len: nat, x: nat, e0: nat, sp0: nat) returns (e: nat, sp: nat, stop: bool)
      requires Scanning(len, x, e0, sp0) && x < len
      modifies this`out, this`partsSent, this`tokenCount, this`tokenPos, this`chunkResume, token
      ensures stop ==> chunkResume && Scanning(len, x, e, sp)
      ensures stop && old(chunkResume) ==>
        tokenCount == old(tokenCount) && Name() == old(Name()) && partsSent == old(partsSent) + 1
      ensures !stop ==> !chunkResume && Scanning(len, x + 1, e, sp)
    {
      ChunkAt(file, filePos, buff[..], len, x);
      hide Rendering, Answering, ChunkOf, Between, InAnswer, Chunk;
      e, sp, stop := e0, sp0, false;
      if tokenPos == -1 {
        sp := InText(len, x, e, sp);
      } else if buff[x] == PERCENT {
        e, stop := AtTokenEnd(len, x, e, sp);
      } else {
        InToken(len, x, e, sp);
      }
    }

    method InText(len: nat, x: nat, e: nat, sp: nat) returns (sp': nat)
      requires Scanning(len, x, e, sp) && x < len && tokenPos == -1
      modifies this`out, this`tokenPos
      ensures !chunkResume && Scanning(len, x + 1, e, sp')
    {
      hide Rendering, Answering;
      ChunkAt(file, filePos, buff[..], len, x);
      hide ChunkOf;
      sp' := TextCharacter(x, filePos - len + x, e, sp);
    }

    method InToken(len: nat, x: nat, e: nat, sp: nat)
      requires Scanning(len, x, e, sp) && x < len && tokenPos != -1 && buff[x] != PERCENT
      modifies this`tokenPos, token
      ensures !chunkResume && Scanning(len, x + 1, e, sp)
    {
      hide Rendering, Answering;
      ChunkAt(file, filePos, buff[..], len, x);
      hide ChunkOf;
      assert buff[e..e + sp] == [];
      TokenCharacter(x, filePos - len + x);
    }

    method AtTokenEnd(len: nat, x: nat, e0: nat, sp: nat) returns (e: nat, stop: bool)
      requires Scanning(len, x, e0, sp) && x < len && tokenPos != -1 && buff[x] == PERCENT
      modifies this`out, this`partsSent, this`tokenCount, this`tokenPos, this`chunkResume, token
      ensures stop == chunkResume
      ensures stop ==> Scanning(len, x, e, sp)
      ensures stop && old(chunkResume) ==>
        tokenCount == old(tokenCount) && Name() == old(Name()) && partsSent == old(partsSent) + 1
      ensures !stop ==> Scanning(len, x + 1, e, sp)
    {
      hide Rendering, Answering;
      ChunkAt(file, filePos, buff[..], len, x);
      hide ChunkOf;
      assert buff[e0..e0 + sp] == [];
      stop := TokenEnds(filePos - len + x);
      e := if stop then e0 else x + 1;   // ordinary text starts behind the percent sign
      assert buff[e..e + sp] == [];
    }

    /** The percent sign at the end of a token, or the one at which the last call stopped. */
    method TokenEnds(ghost pos: nat) returns (stop: bool)
      requires Shape() && tokenPos >= 0 && pos < |file| && file[pos] == PERCENT
      requires if chunkResume then InAnswer(pos) else Between(pos, [])
      modifies this`out, this`partsSent, this`tokenCount, this`tokenPos, this`chunkResume, token
      ensures Shape() && stop == chunkResume
      ensures stop ==> InAnswer(pos) && tokenPos >= 0
      ensures stop && old(chunkResume) ==>
        tokenCount == old(tokenCount) && Name() == old(Name()) && partsSent == old(partsSent) + 1
      ensures !stop ==> tokenPos == -1 && Between(pos + 1, [])
    {
      hide Rendering, Answering;
      stop := false;
      var isToken := true;
      if !chunkResume {
        isToken := CloseToken(pos);
      }
      if isToken {
        stop := AnswerToken(pos);
      }
    }

    /** The scanning loop. */
    method Scan(len: nat, x0: nat, e0: nat, sp0: nat) returns (x: nat, e: nat, sp: nat, stop: bool)
      requires Scanning(len, x0, e0, sp0)
      modifies this`out, this`partsSent, this`tokenCount, this`tokenPos, this`chunkResume, token
      ensures Scanning(len, x, e, sp) && stop == chunkResume
      ensures x0 <= x && (old(chunkResume) && !stop ==> x0 < x) && (!stop ==> x == len)
      ensures stop && old(chunkResume) && x == x0 ==>
        tokenCount == old(tokenCount) && Name() == old(Name()) && partsSent == old(partsSent) + 1
    {
      hide Chunk, Between, InAnswer;
      x, e, sp, stop := x0, e0, sp0, false;
      while x < len
        invariant Scanning(len, x, e, sp) && !stop && x0 <= x
        invariant x == x0 ==>
          chunkResume == old(chunkResume) && tokenCount == old(tokenCount) && Name() == old(Name())
              && partsSent == old(partsSent)
        invariant x > x0 ==> !chunkResume
      {
        e, sp, stop := OneCharacter(len, x, e, sp);
        if stop {
          break;
        }
        x := x + 1;
      }
    }

    /** The text held back at the end of a chunk leaves. */
    method SendRemaining(len: nat, e: nat, sp: nat)
      requires Scanning(len, len, e, sp) && !chunkResume
      modifies this`out
      ensures Shape() && Between(filePos, [])
    {
      hide Rendering;
      ghost var held := buff[e..e + sp];
      RenderingSent(file, answers, out, held, tokenPos >= 0, Token(), filePos, tokenCount);
      if sp != 0 {
        out := out + buff[e..e + sp];
      }
      assert out == old(out) + held;
    }

    /** How far the output is from its end: a call gets further in the file, or stops at the first
        character of a new chunk, or sends another part of a token's answer. */
    ghost function Position(): nat
      requires Valid()
      reads this, token, buff
    {
      if chunkResume then filePos - buffLen + buffX else filePos
    }

    ghost function PartsLeft(): nat
      requires Valid()
      reads this, token, buff
    {
      if chunkResume then |answers(tokenCount, Name()).Parts()| - partsSent else 0
    }

    /** The start of a call: go on in the chunk that is saved, or read the next one. */
    method Enter() returns (len: nat, x: nat, e: nat, sp: nat)
      requires Valid()
      modifies this`filePos, this`buffLen, buff
      ensures Scanning(len, x, e, sp)
      ensures filePos - len + x == old(Position())
      ensures Name() == old(Name())
      ensures len == TEMPLATE_CHUNK || filePos == |file|
      ensures !chunkResume ==> x == 0
    {
      hide Rendering, Answering;
      if chunkResume {
        len, e, sp, x := buffLen, buffE, buffSp, buffX;
      } else {
        len := ReadChunk();
        buffLen := len;
        e, sp, x := 0, 0, 0;
        assert buff[e..e + sp] == [];
      }
    }

    /** The callback wants another call in this place: what the scan needs to go on is kept. */
    method Suspend(len: nat, x: nat, e: nat, sp: nat)
      requires Scanning(len, x, e, sp) && chunkResume
      modifies this`buffLen, this`buffE, this`buffSp, this`buffX
      ensures Valid() && Position() == filePos - len + x
      ensures PartsLeft() == |answers(tokenCount, Name()).Parts()| - partsSent
    {
      hide Answering, Rendering;
      buffLen, buffE, buffSp, buffX := len, e, sp, x;
    }

    /** `cgiEspFsTemplate`, from the second call on. */
    method Cgi() returns (r: CgiState)
      requires Valid()
      modifies this, token, buff
      ensures r.Done? ==> out == Render(file, answers, 0)
      ensures r.More? ==> Valid()
      ensures r.More? ==>
        || Position() > old(Position())
        || (Position() == old(Position()) && chunkResume && !old(chunkResume))
        || (Position() == old(Position()) && chunkResume && old(chunkResume) && PartsLeft() < old(PartsLeft()))
    {
      hide Rendering, Answering, Render, Chunk, InAnswer;
      var len, x, e, sp := Enter();
      var stop;
      x, e, sp, stop := Scan(len, x, e, sp);
      if stop {
        Suspend(len, x, e, sp);
        return More;
      }
      SendRemaining(len, e, sp);
      if len != TEMPLATE_CHUNK {
        RenderingEnds(file, answers, out, tokenPos >= 0, Token(), tokenCount);
        return Done;
      }
      return More;
    }
  }

  ghost predicate ChunkOf(file: seq<byte>, filePos: nat, buffer: seq<byte>, len: nat) {
    && len <= TEMPLATE_CHUNK && len <= |buffer| && len <= filePos <= |file|
    && buffer[..len] == file[filePos - len..filePos]
    && (len < TEMPLATE_CHUNK ==> filePos == |file|)
  }

  lemma ChunkAt(file: seq<byte>, filePos: nat, buffer: seq<byte>, len: nat, x: nat)
    requires ChunkOf(file, filePos, buffer, len) && x < len
    ensures len <= filePos <= |file| && len <= |buffer| && buffer[x] == file[filePos - len + x]
  {
    assert buffer[..len][x] == file[filePos - len..filePos][x];
  }

  /** Calls of the CGI function until it is done: the output is the rendered file, whatever the
      number of calls the callback asks for. */
  method Serve(file: seq<byte>, answers: Answers) returns (out: seq<byte>)
    ensures out == Render(file, answers, 0)
  {
    var tpd := new TplData(file, answers);
    var r := CgiState.More;
    while r.More?
      invariant fresh(tpd) && fresh(tpd.token) && fresh(tpd.buff) && tpd.file == file && tpd.answers == answers
      invariant r.More? ==> tpd.Valid()
      invariant r.Done? ==> tpd.out == Render(file, answers, 0)
      decreases r.More?, if r.More? then |file| - tpd.Position() else 0,
                if tpd.chunkResume then 0 else 1, if r.More? then tpd.PartsLeft() else 0
    {
      r := tpd.Cgi();
    }
    out := tpd.out;
  }
}
