/**
 `espfs.c`: opening files and reading them out of flash, which can only be read in aligned words.
 */
module EspFs {
  import opened Bytes
  import opened EspFsFormat
  import opened EspFsImage

  /** `spi_flash_read`. */
  method SpiFlashRead(flash: seq<byte>, address: nat, dst: array<byte>, len: nat)
    requires address % 4 == 0 && len <= dst.Length
    modifies dst
    ensures dst[..] == ReadFlash(flash, address, len) + old(dst[len..])
  {
    for k := 0 to len
      invariant forall j :: 0 <= j < k ==> dst[j] == ByteAt(flash, address + j)
      invariant forall j :: k <= j < dst.Length ==> dst[j] == old(dst[j])
    {
      dst[k] := ByteAt(flash, address + k);
    }
  }

  /** `readFlashUnaligned`: any bytes of the flash by means of aligned reads. */
  method ReadFlashUnaligned(flash: seq<byte>, dst: array<byte>, src: nat, len: nat)
    requires len <= dst.Length
    modifies dst
    ensures dst[..] == ReadFlash(flash, src, len) + old(dst[len..])
  {
    var offset := src % 4;
    var address := src - offset;
    var tmp := new byte[4 * (len / 4 + 2)](_ => 0);
    SpiFlashRead(flash, address, tmp, len + offset);
    assert tmp[offset..offset + len] == ReadFlash(flash, src, len) by {
      ReadWithin(flash, address, len + offset, offset);
      assert tmp[..][offset..offset + len] == tmp[..len + offset][offset..];
    }
    for k := 0 to len
      invariant tmp[offset..offset + len] == ReadFlash(flash, src, len)
      invariant forall j :: 0 <= j < k ==> dst[j] == ReadFlash(flash, src, len)[j]
      invariant forall j :: k <= j < dst.Length ==> dst[j] == old(dst[j])
    {
      assert tmp[offset + k] == tmp[offset..offset + len][k];
      dst[k] := tmp[offset + k];
    }
  }

  lemma ReadWithin(flash: seq<byte>, address: nat, len: nat, offset: nat)
    requires offset <= len
    ensures ReadFlash(flash, address, len)[offset..] == ReadFlash(flash, address + offset, len - offset)
  {
  }

  /** An open file. */
  class EspFsFile {
    const header: nat
    const decompressor: byte
    var posDecomp: nat
    const posStart: nat
    var posComp: nat

    constructor (header: nat, decompressor: byte, start: nat)
      ensures this.header == header && this.decompressor == decompressor && posStart == start
      ensures posComp == start && posDecomp == 0
    {
      this.header, this.decompressor, posStart, posComp, posDecomp := header, decompressor, start, start, 0;
    }

    ghost predicate Valid(flash: seq<byte>)
      reads this
    {
      && decompressor == COMPRESS_NONE
      && posStart <= posComp <= posStart + FileLength(flash, header)
      && posDecomp == posComp - posStart
    }

    /** What is still to be read. */
    ghost function Rest(flash: seq<byte>): seq<byte>
      reads this
      requires Valid(flash)
    {
      ReadFlash(flash, posComp, FileLength(flash, header) - (posComp - posStart))
    }

    /** `espFsRead` of an uncompressed file. */
    method Read(flash: seq<byte>, buff: array<byte>, len: nat) returns (n: nat)
      requires Valid(flash) && len <= buff.Length
      modifies this, buff
      ensures Valid(flash) && n == Min(len, |old(Rest(flash))|)
      ensures buff[..] == old(Rest(flash))[..n] + old(buff[n..])
      ensures Rest(flash) == old(Rest(flash))[n..]
    {
      hide Get32;
      var word := new byte[4](_ => 0);
      ReadFlashUnaligned(flash, word, Wrap(header + 8), 4);
      assert word[..] == ReadFlash(flash, Wrap(header + 8), 4);
      var flen := Get32(word[..], 0);
      var toRead := flen - (posComp - posStart);
      n := len;
      if n > toRead {
        n := toRead;
      }
      ReadFlashUnaligned(flash, buff, posComp, n);
      ReadWithin(flash, posComp, toRead, n);
      ReadStart(flash, posComp, toRead, n);
      posDecomp := posDecomp + n;
      posComp := posComp + n;
    }
  }

  function Min(a: nat, b: nat): nat { if a <= b then a else b }

  lemma ReadStart(flash: seq<byte>, address: nat, len: nat, n: nat)
    requires n <= len
    ensures ReadFlash(flash, address, len)[..n] == ReadFlash(flash, address, n)
  {
  }

  /** `espFsOpen`, whenever the search ends. */
  method Open(flash: seq<byte>, espFsData: nat, fileName: seq<byte>, ghost n: nat) returns (r: EspFsFile?)
    requires Ends(flash, espFsData, Stripped(fileName), n) && espFsData % 4 == 0
    ensures match Search(flash, espFsData, Stripped(fileName), n)
            case Found(header, start) =>
              && r != null && fresh(r) && r.header == header && r.decompressor == COMPRESS_NONE
              && r.posStart == start && r.posComp == start && r.posDecomp == 0
            case _ => r == null
  {
    hide Get16, Get32, CString, ReadFlash, Wrap, Align;
    var name := fileName;
    while name != [] && name[0] == SLASH
      invariant Stripped(name) == Stripped(fileName)
      decreases |name|
    {
      name := name[1..];
    }
    var p: nat := espFsData;
    ghost var m: nat := n;
    while true
      invariant Ends(flash, p, name, m) && Search(flash, p, name, m) == Search(flash, espFsData, name, n)
      invariant p % 4 == 0
      decreases m
    {
      var hpos := p;
      var h := new byte[HEADER_SIZE](_ => 0);
      SpiFlashRead(flash, p, h, HEADER_SIZE);
      assert h[..] == ReadFlash(flash, p, HEADER_SIZE);
      if Get32(h[..], 0) != MAGIC { return null; }
      if h[4] % 2 == 1 { return null; }
      WrapFour(p);
      p := Wrap(p + HEADER_SIZE);
      var namebuf := new byte[NAMEBUF](_ => 0);
      SpiFlashRead(flash, p, namebuf, NAMEBUF);
      assert namebuf[..] == ReadFlash(flash, p, NAMEBUF);
      if CString(namebuf[..]) == name {
        var skip: int := Get16(h[..], 6);
        p := Advance(p, skip);
        if h[5] == COMPRESS_NONE {
          r := new EspFsFile(hpos, h[5], p);
          return r;
        }
        return null;
      }
      var skip: int := Get16(h[..], 6) + Get32(h[..], 8);
      p := Advance(p, skip);
      p := Align(p);
      m := m - 1;
    }
  }

  // ---------------------------------------------------------------- whole files

  /** What a sequence of reads of the given sizes delivers. */
  function Served(rest: seq<byte>, lens: seq<nat>): (pieces: seq<seq<byte>>)
    ensures |pieces| == |lens|
  {
    if lens == [] then []
    else
      var n := Min(lens[0], |rest|);
      [rest[..n]] + Served(rest[n..], lens[1..])
  }

  function Sum(lens: seq<nat>): nat { if lens == [] then 0 else lens[0] + Sum(lens[1..]) }

  /** The pieces are consecutive and start at the file's start. */
  lemma {:induction false} ServedIsPrefix(rest: seq<byte>, lens: seq<nat>)
    ensures Flatten(Served(rest, lens)) == rest[..Min(Sum(lens), |rest|)]
  {
    if lens != [] {
      var n := Min(lens[0], |rest|);
      ServedIsPrefix(rest[n..], lens[1..]);
      FlattenFirst(rest[..n], Served(rest[n..], lens[1..]));
      hide Flatten, Served;
      TwoPieces(rest, n, Min(Sum(lens[1..]), |rest| - n));
    }
  }

  lemma FlattenFirst(p: seq<byte>, more: seq<seq<byte>>)
    ensures Flatten([p] + more) == p + Flatten(more)
  {
    assert ([p] + more)[1..] == more;
  }

  lemma TwoPieces(s: seq<byte>, n: nat, m: nat)
    requires n + m <= |s|
    ensures s[..n] + s[n..][..m] == s[..n + m]
  {
  }

  /** A piece is never longer than asked for, and empty only for a request of nothing or at the end of
      the file. */
  lemma {:induction false} ServedUntilEnd(rest: seq<byte>, lens: seq<nat>, i: nat)
    requires i < |lens|
    ensures |Served(rest, lens)[i]| <= lens[i]
    ensures Served(rest, lens)[i] == [] <==> lens[i] == 0 || |rest| <= Sum(lens[..i])
  {
    if i > 0 {
      var n := Min(lens[0], |rest|);
      ServedUntilEnd(rest[n..], lens[1..], i - 1);
      assert lens[..i][1..] == lens[1..][..i - 1];
    }
  }

  /** An archive's file opened by name and read in pieces of any sizes: the first file of that name,
      and nothing if there is none. */
  method Fetch(flash: seq<byte>, espFsData: nat, ghost files: seq<File>, fileName: seq<byte>, lens: seq<nat>)
    returns (found: bool, pieces: seq<seq<byte>>)
    requires At(flash, espFsData, Image(files)) && (forall f <- files :: Storable(f))
    requires espFsData % 4 == 0 && |flash| < 0x8000_0000
    ensures var i := First(files, Stripped(fileName));
            if i == |files| then !found else found && pieces == Served(files[i].stored, lens)
  {
    ghost var name := Stripped(fileName);
    FirstFile(flash, espFsData, files, name);
    hide Search, Ends, FileLength, Start, At, Image, Storable, ReadFlash, Place, First, Served, Stripped;
    var file := Open(flash, espFsData, fileName, |files|);
    if file == null {
      return false, [];
    }
    ghost var i := First(files, name);
    assert file.Rest(flash) == files[i].stored;
    pieces := ReadPieces(flash, file, lens);
    return true, pieces;
  }

  /** The search found an aligned header, and these contents. */
  ghost predicate IsOf(flash: seq<byte>, v: Verdict, stored: seq<byte>) {
    && v.Found? && v.header % 4 == 0
    && FileLength(flash, v.header) == |stored| && ReadFlash(flash, v.start, |stored|) == stored
  }

  lemma FirstFile(flash: seq<byte>, p: nat, files: seq<File>, name: seq<byte>)
    requires At(flash, p, Image(files)) && (forall f <- files :: Storable(f)) && p % 4 == 0 && |flash| < 0x8000_0000
    ensures Ends(flash, p, name, |files|)
    ensures First(files, name) == |files| ==> Search(flash, p, name, |files|) == Missing
    ensures First(files, name) < |files| ==>
      IsOf(flash, Search(flash, p, name, |files|), files[First(files, name)].stored)
  {
    hide Search, Ends, FileLength, Start, Image, Entry, ReadFlash, Round4, Place, At, Storable;
    SearchImage(flash, p, files, name);
    var i := First(files, name);
    if i < |files| {
      FileLengthBack(flash, p + Place(files, i), files[i]);
    }
  }

  lemma ServedStep(pieces: seq<seq<byte>>, rest: seq<byte>, lens: seq<nat>, k: nat)
    requires k < |lens|
    ensures var n := Min(lens[k], |rest|);
            pieces + Served(rest, lens[k..]) == pieces + [rest[..n]] + Served(rest[n..], lens[k + 1..])
  {
    hide Served;
    assert lens[k..][1..] == lens[k + 1..] && lens[k..][0] == lens[k];
    ServedFirst(rest, lens[k..]);
    Regroup(pieces, [rest[..Min(lens[k], |rest|)]], Served(rest[Min(lens[k], |rest|)..], lens[k + 1..]));
  }

  lemma ServedFirst(rest: seq<byte>, lens: seq<nat>)
    requires lens != []
    ensures var n := Min(lens[0], |rest|); Served(rest, lens) == [rest[..n]] + Served(rest[n..], lens[1..])
  {
  }

  lemma Regroup(a: seq<seq<byte>>, b: seq<seq<byte>>, c: seq<seq<byte>>)
    ensures a + (b + c) == a + b + c
  {
  }

  method ReadPieces(flash: seq<byte>, file: EspFsFile, lens: seq<nat>) returns (pieces: seq<seq<byte>>)
    requires file.Valid(flash)
    modifies file
    ensures file.Valid(flash) && pieces == Served(old(file.Rest(flash)), lens)
  {
    hide FileLength, ReadFlash, Served, Flatten;
    pieces := [];
    ghost var all := file.Rest(flash);
    assert lens[0..] == lens;
    for k := 0 to |lens|
      invariant file.Valid(flash)
      invariant pieces + Served(file.Rest(flash), lens[k..]) == Served(all, lens)
    {
      ghost var rest := file.Rest(flash);
      ServedStep(pieces, rest, lens, k);
      var piece := ReadOne(flash, file, lens[k]);
      pieces := pieces + [piece];
    }
    assert |Served(file.Rest(flash), lens[|lens|..])| == 0;
  }

  method ReadOne(flash: seq<byte>, file: EspFsFile, len: nat) returns (piece: seq<byte>)
    requires file.Valid(flash)
    modifies file
    ensures file.Valid(flash) && piece == old(file.Rest(flash))[..Min(len, |old(file.Rest(flash))|)]
    ensures file.Rest(flash) == old(file.Rest(flash))[|piece|..]
  {
    hide FileLength, ReadFlash;
    var buff := new byte[len](_ => 0);
    var n := file.Read(flash, buff, len);
    piece := buff[..n];
  }
}
