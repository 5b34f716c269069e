/**
 What the reader makes of the flash: the search for a file header by header, on any contents, and
 what it finds in an image of the writer.
 */
module EspFsImage {
  import opened Bytes
  import opened EspFsFormat

  const NAMEBUF: nat := 256

  /** Flash contents from an address on; beyond the chip's end the bus reads as ones. */
  function ReadFlash(flash: seq<byte>, address: nat, len: nat): (r: seq<byte>)
    ensures |r| == len
  {
    seq<byte>(len, i requires 0 <= i < len => ByteAt(flash, address + i))
  }

  function ByteAt(flash: seq<byte>, address: nat): byte { if address < |flash| then flash[address] else 255 }

  /** A 32-bit address. */
  function Wrap(n: int): nat { n % 0x1_0000_0000 }

  lemma WrapFour(p: nat)
    requires p % 4 == 0
    ensures Wrap(p + HEADER_SIZE) % 4 == 0
  {
  }

  function Advance(p: int, delta: int): nat { Wrap(p + delta) }

  function Signed(n: nat, top: nat): int { if n >= top then n - 2 * top else n }

  function Get16(h: seq<byte>, at: nat): int
    requires at + 2 <= |h|
  {
    Signed(LittleEndian32(h[at..at + 2] + [0, 0]), 0x8000)
  }

  function Get32(h: seq<byte>, at: nat): int
    requires at + 4 <= |h|
  {
    Signed(LittleEndian32(h[at..at + 4]), 0x8000_0000)
  }

  /** The file name without its initial slashes. */
  function Stripped(name: seq<byte>): seq<byte> {
    if name != [] && name[0] == SLASH then Stripped(name[1..]) else name
  }

  // ---------------------------------------------------------------- the search

  datatype Verdict = Broken | Missing | Unsupported | Found(header: nat, start: nat) | Next(p: nat)

  /** The end of the loop body: on to the next 32-bit boundary. */
  function Align(p: nat): (r: nat)
    ensures r % 4 == 0
  {
    Wrap(if p % 4 != 0 then p + (4 - p % 4) else p)
  }

  /** What the search makes of the header at p. */
  function Examine(flash: seq<byte>, p: nat, name: seq<byte>): Verdict {
    var h := ReadFlash(flash, p, HEADER_SIZE);
    if Get32(h, 0) != MAGIC then Broken
    else if h[4] % 2 == 1 then Missing
    else
      var q := Wrap(p + HEADER_SIZE);
      if CString(ReadFlash(flash, q, NAMEBUF)) == name then
        if h[5] == COMPRESS_NONE then Found(p, Advance(q, Get16(h, 6))) else Unsupported
      else Next(Align(Advance(q, Get16(h, 6) + Get32(h, 8))))
  }

  /** The search ends after passing n files by. */
  ghost predicate Ends(flash: seq<byte>, p: nat, name: seq<byte>, n: nat)
    decreases n
  {
    hide Examine;
    match Examine(flash, p, name)
    case Next(q) => n > 0 && Ends(flash, q, name, n - 1)
    case _ => true
  }

  ghost function Search(flash: seq<byte>, p: nat, name: seq<byte>, n: nat): Verdict
    requires Ends(flash, p, name, n)
    decreases n
  {
    hide Examine;
    match Examine(flash, p, name)
    case Next(q) => Search(flash, q, name, n - 1)
    case v => v
  }

  // ---------------------------------------------------------------- fields read back

  lemma Get32Back(n: nat, h: seq<byte>, at: nat)
    requires n < 0x8000_0000 && at + 4 <= |h| && h[at..at + 4] == Le32(n)
    ensures Get32(h, at) == n
  {
    Le32Back(n);
  }

  lemma Get16Back(n: nat, h: seq<byte>, at: nat)
    requires n < 0x8000 && at + 2 <= |h| && h[at..at + 2] == Le16(n)
    ensures Get16(h, at) == n
  {
    LowByte(n);
  }

  /** Every field of a header is read as it was written. */
  lemma HeaderBack(flags: byte, compression: byte, nameLen: nat, comp: nat, decomp: nat)
    requires nameLen < 0x8000 && comp < 0x8000_0000
    ensures var h := Header(flags, compression, nameLen, comp, decomp);
            && Get32(h, 0) == MAGIC && h[4] == flags && h[5] == compression
            && Get16(h, 6) == nameLen && Get32(h, 8) == comp
  {
    hide Le16, Le32, Get16, Get32;
    var h := Header(flags, compression, nameLen, comp, decomp);
    assert h[0..4] == Le32(MAGIC);
    assert h[6..8] == Le16(nameLen);
    assert h[8..12] == Le32(comp);
    Get32Back(MAGIC, h, 0);
    Get16Back(nameLen, h, 6);
    Get32Back(comp, h, 8);
  }

  // ---------------------------------------------------------------- images

  lemma AtRead(flash: seq<byte>, p: nat, s: seq<byte>)
    requires At(flash, p, s)
    ensures ReadFlash(flash, p, |s|) == s
  {
    forall i | 0 <= i < |s|
      ensures ReadFlash(flash, p, |s|)[i] == s[i]
    {
      assert flash[p..p + |s|][i] == flash[p + i];
      assert ReadFlash(flash, p, |s|)[i] == ByteAt(flash, p + i);
    }
  }

  /** A 256-byte read at a file's name yields the name. */
  lemma NameRead(flash: seq<byte>, p: nat, name: seq<byte>)
    requires At(flash, p, PaddedName(name)) && |name| < NAMEBUF && 0 !in name
    ensures CString(ReadFlash(flash, p, NAMEBUF)) == name
  {
    var n := |name|;
    var pad := PaddedName(name);
    var r := ReadFlash(flash, p, NAMEBUF);
    assert pad[..n] == name && pad[n] == 0;
    forall i | 0 <= i < n + 1
      ensures r[i] == pad[i]
    {
      assert flash[p..p + |pad|][i] == flash[p + i];
      assert r[i] == ByteAt(flash, p + i);
    }
    assert r[..n] == name;
    assert r == name + r[n..];
    CStringOf(name, r[n..]);
  }

  lemma AtEntry(flash: seq<byte>, p: nat, f: File)
    requires At(flash, p, Entry(f))
    ensures var start := p + HEADER_SIZE + |PaddedName(f.name)|;
            At(flash, p, EntryHead(f)) && At(flash, p + HEADER_SIZE, PaddedName(f.name)) && At(flash, start, f.stored)
  {
    var tail := Zeros(Round4(|f.stored|) - |f.stored|);
    AtParts(flash, p, EntryHead(f) + PaddedName(f.name), f.stored + tail);
    AtParts(flash, p, EntryHead(f), PaddedName(f.name));
    AtParts(flash, p + HEADER_SIZE + |PaddedName(f.name)|, f.stored, tail);
  }

  /** Where the content of the file with its header at p starts. */
  function Start(p: nat, f: File): nat { p + HEADER_SIZE + Round4(|f.name| + 1) }

  /** At an entry the search stops if the name is the one it wants, and otherwise it goes on at the
      next entry, which is aligned. */
  lemma ExamineEntry(flash: seq<byte>, p: nat, f: File, name: seq<byte>)
    requires At(flash, p, Entry(f)) && Storable(f) && p % 4 == 0 && |flash| < 0x8000_0000
    ensures Examine(flash, p, name) == if f.name == name then Found(p, Start(p, f)) else Next(p + |Entry(f)|)
  {
    hide Entry, PaddedName, Zeros, Get16, Get32, CString, Header, Align, Advance, Wrap;
    AtEntry(flash, p, f);
    var h := EntryHead(f);
    assert Round4(|f.name| + 1) < 0x8000;
    HeaderBack(if f.gzip then FLAG_GZIP else 0, COMPRESS_NONE, Round4(|f.name| + 1), |f.stored|, f.size);
    AtRead(flash, p, h);
    NameRead(flash, p + HEADER_SIZE, f.name);
    AlignedEntry(p, Round4(|f.name| + 1), |f.stored|);
  }

  lemma AlignedEntry(p: nat, n: nat, m: nat)
    requires p % 4 == 0 && n % 4 == 0 && p + n + m + 20 < 0x1_0000_0000
    ensures Wrap(p + 16) == p + 16 && Advance(p + 16, n) == p + 16 + n
    ensures Align(Advance(p + 16, n + m)) == p + 16 + n + Round4(m)
  {
    NoWrap(p + 16);
    NoWrap(p + 16 + n);
    NoWrap(p + 16 + n + m);
    SumOfThree(p, n);
    AlignUp(p + 16 + n, m);
    hide Wrap, Align, Round4;
  }

  lemma NoWrap(n: nat)
    requires n < 0x1_0000_0000
    ensures Wrap(n) == n
  {
  }

  lemma SumOfThree(p: nat, n: nat)
    requires p % 4 == 0 && n % 4 == 0
    ensures (p + 16 + n) % 4 == 0
  {
  }

  lemma AlignUp(q: nat, m: nat)
    requires q % 4 == 0 && q + m + 4 < 0x1_0000_0000
    ensures Align(q + m) == q + Round4(m)
  {
    RoundUp(m);
    SameRest(q, m);
    NoWrap(q + m);
    NoWrap(if (q + m) % 4 != 0 then q + m + (4 - (q + m) % 4) else q + m);
    hide Wrap, Round4;
  }

  lemma SameRest(q: nat, m: nat)
    requires q % 4 == 0
    ensures (q + m) % 4 == m % 4
  {
  }

  lemma ExamineLast(flash: seq<byte>, p: nat, name: seq<byte>)
    requires At(flash, p, LastHeader())
    ensures Examine(flash, p, name) == Missing
  {
    hide Get16, Get32, Header;
    HeaderBack(FLAG_LASTFILE, COMPRESS_NONE, 0, 0, 0);
    AtRead(flash, p, LastHeader());
  }

  /** The position of the first file of that name, or the number of files. */
  function First(files: seq<File>, name: seq<byte>): (i: nat)
    ensures i <= |files|
    ensures forall j :: 0 <= j < i ==> files[j].name != name
    ensures i < |files| ==> files[i].name == name
  {
    if files == [] || files[0].name == name then 0 else First(files[1..], name) + 1
  }

  function SumOfFours(a: nat, b: nat): (r: nat)
    requires a % 4 == 0 && b % 4 == 0
    ensures r % 4 == 0 && r == a + b
  {
    a + b
  }

  /** Where the entry of file i is. */
  function Place(files: seq<File>, i: nat): (r: nat)
    requires i <= |files|
    ensures r % 4 == 0
  {
    hide Entry, Round4;
    if i == 0 then 0 else SumOfFours(|Entry(files[0])|, Place(files[1..], i - 1))
  }

  /** The search in an image ends, at the first file of the name or at the last header. */
  lemma {:induction false} SearchImage(flash: seq<byte>, p: nat, files: seq<File>, name: seq<byte>)
    requires At(flash, p, Image(files)) && (forall f <- files :: Storable(f)) && p % 4 == 0 && |flash| < 0x8000_0000
    ensures Ends(flash, p, name, |files|)
    ensures var i := First(files, name);
            if i == |files| then Search(flash, p, name, |files|) == Missing
            else var at := p + Place(files, i);
              Search(flash, p, name, |files|) == Found(at, Start(at, files[i])) && At(flash, at, Entry(files[i]))
    decreases |files|
  {
    hide Entry, Examine, Start, Round4, At, Storable;
    if files == [] {
      assert Image(files) == LastHeader();
      ExamineLast(flash, p, name);
    } else {
      var f, rest := files[0], files[1..];
      assert Image(files) == Entry(f) + Image(rest);
      AtParts(flash, p, Entry(f), Image(rest));
      ExamineEntry(flash, p, f, name);
      if f.name != name {
        SearchImage(flash, p + |Entry(f)|, rest, name);
      }
    }
  }

  /** The length that a file's header gives. */
  function FileLength(flash: seq<byte>, header: nat): int { Get32(ReadFlash(flash, Wrap(header + 8), 4), 0) }

  lemma FileLengthBack(flash: seq<byte>, p: nat, f: File)
    requires At(flash, p, Entry(f)) && Storable(f) && |flash| < 0x8000_0000
    ensures FileLength(flash, p) == |f.stored|
    ensures ReadFlash(flash, Start(p, f), |f.stored|) == f.stored && Start(p, f) + |f.stored| <= |flash|
  {
    AtEntry(flash, p, f);
    AtRead(flash, Start(p, f), f.stored);
    hide Entry, PaddedName, Zeros, Round4, Get32, EntryHead;
    HeaderLength(flash, p, f);
  }

  lemma HeaderLength(flash: seq<byte>, p: nat, f: File)
    requires At(flash, p, EntryHead(f)) && Storable(f) && |flash| < 0x8000_0000
    ensures FileLength(flash, p) == |f.stored|
  {
    hide Round4, Get32;
    var n := Round4(|f.name| + 1);
    var a := Le32(MAGIC) + [if f.gzip then FLAG_GZIP else 0, COMPRESS_NONE] + Le16(n);
    var b, c := Le32(|f.stored|), Le32(f.size);
    assert b[0..4] == b;
    Get32Back(|f.stored|, b, 0);
    hide Le16, Le32;
    assert EntryHead(f) == a + (b + c);
    hide EntryHead, Header;
    AtParts(flash, p, a, b + c);
    AtParts(flash, p + 8, b, c);
    AtRead(flash, p + 8, b);
  }
}
