/**
 From the list of paths given to mkespfsimage to the file that a web server's `espFsOpen` finds.
 */
module EspFsArchive {
  import opened Bytes
  import opened Wrappers
  import opened EspFsFormat
  import opened EspFsImage
  import opened EspFs

  /** A path under which a file called `name` is given to the writer: "./name", "/name", or the name itself; a period
      that is not followed by a slash is taken off too. */
  predicate Denotes(path: seq<byte>, name: seq<byte>) {
    || path == [46, 47] + name
    || path == [47] + name
    || (path == [46] + name && (name == [] || name[0] != 47))
    || (path == name && (name == [] || (name[0] != 46 && name[0] != 47)))
  }

  lemma DenotesIsRealName(path: seq<byte>, name: seq<byte>)
    ensures Denotes(path, name) <==> RealName(path) == name
  {
    var inner := if path != [] && path[0] == PERIOD then path[1..] else path;
    assert path == (if path != [] && path[0] == PERIOD then [46] else []) + inner;
    assert inner == (if inner != [] && inner[0] == SLASH then [47] else []) + RealName(path);
    assert [46] + ([47] + name) == [46, 47] + name;
  }

  /** What is stored of a file: its compressed form, unless that is longer. */
  function Content(data: seq<byte>, gzip: Option<seq<byte>>): seq<byte> {
    match gzip
    case None => data
    case Some(z) => if |z| > |data| then data else z
  }

  predicate Givable(path: seq<byte>, data: seq<byte>) {
    |path| < 256 && 0 !in path && 0 < |data| < 0x8000_0000
  }

  lemma FilesStorable(paths: seq<seq<byte>>, datas: seq<seq<byte>>, gzips: seq<Option<seq<byte>>>, k: nat)
    requires |paths| == |datas| == |gzips| && k < |paths| && Givable(paths[k], datas[k])
    ensures var f := FilesOf(paths, datas, gzips)[k];
            Storable(f) && f.name == RealName(paths[k]) && f.stored == Content(datas[k], gzips[k])
  {
  }

  /** An archive written from a list of paths, anywhere on a chip: a request for the name behind any number
      of slashes opens the first file given under that name and reads it in pieces of any sizes; without one it finds
      nothing. */
  method WriteAndFetch(paths: seq<seq<byte>>, datas: seq<seq<byte>>, gzips: seq<Option<seq<byte>>>,
                       before: seq<byte>, behind: seq<byte>, slashes: nat, name: seq<byte>, lens: seq<nat>)
    returns (found: bool, pieces: seq<seq<byte>>, i: nat)
    requires |paths| == |datas| == |gzips|
    requires forall k :: 0 <= k < |paths| ==> Givable(paths[k], datas[k])
    requires |before| % 4 == 0 && (name == [] || name[0] != 47)
    requires |before| + |Image(FilesOf(paths, datas, gzips))| + |behind| < 0x8000_0000
    ensures i <= |paths| && forall k :: 0 <= k < i ==> !Denotes(paths[k], name)
    ensures i < |paths| ==> Denotes(paths[i], name)
    ensures found <==> i < |paths|
    ensures found ==> pieces == Served(Content(datas[i], gzips[i]), lens)
  {
    hide Image, FilesOf, RealName, Served, Content, Denotes;
    var image := WriteImage(paths, datas, gzips);
    var files := FilesOf(paths, datas, gzips);
    var flash := before + image + behind;
    assert flash[|before|..|before| + |image|] == image;
    forall k | 0 <= k < |files|
      ensures Storable(files[k]) && files[k].name == RealName(paths[k])
          && files[k].stored == Content(datas[k], gzips[k])
    {
      FilesStorable(paths, datas, gzips, k);
    }
    AllStorable(files);
    Slashes(slashes, name);
    found, pieces := Fetch(flash, |before|, files, seq<byte>(slashes, _ => 47) + name, lens);
    i := First(files, name);
    forall k | 0 <= k < |paths|
      ensures Denotes(paths[k], name) <==> files[k].name == name
    {
      DenotesIsRealName(paths[k], name);
    }
  }

  lemma AllStorable(files: seq<File>)
    requires forall k :: 0 <= k < |files| ==> Storable(files[k])
    ensures forall f <- files :: Storable(f)
  {
  }

  lemma {:induction false} Slashes(n: nat, name: seq<byte>)
    requires name == [] || name[0] != 47
    ensures Stripped(seq<byte>(n, _ => 47) + name) == name
  {
    var s := seq<byte>(n, _ => 47) + name;
    if n == 0 {
      assert s == name;
    } else {
      Slashes(n - 1, name);
      assert s[1..] == seq<byte>(n - 1, _ => 47) + name;
    }
  }

  // ---------------------------------------------------------------- the bytes

  function Two(low: nat, high: nat): nat { low + 0x100 * high }

  function Four(a: nat, b: nat, c: nat, d: nat): nat { a + 0x100 * b + 0x1_0000 * c + 0x100_0000 * d }

  /** What the sixteen bytes of a header say, in the reader's eyes: "ESfs", flags, compression, the length of the name
      in two bytes, the lowest first, and that of the content in four.  A file that is not the one wanted is passed by,
      up to the next multiple of four. */
  function Judged(h: seq<byte>, p: nat, wanted: bool): Verdict
    requires |h| == 16
  {
    if h[..4] != [69, 83, 102, 115] then Broken
    else if h[4] % 2 == 1 then Missing
    else if !wanted then Next((p + 16 + Two(h[6], h[7]) + Four(h[8], h[9], h[10], h[11]) + 3) / 4 * 4)
    else if h[5] != 0 then Unsupported
    else Found(p, p + 16 + Two(h[6], h[7]))
  }

  /** The search, header by header: lengths that are not negative and do not lead beyond the addresses of 32 bits. */
  lemma HeaderJudged(flash: seq<byte>, p: nat, name: seq<byte>)
    requires var h := ReadFlash(flash, p, 16);
             && Two(h[6], h[7]) < 0x8000 && Four(h[8], h[9], h[10], h[11]) < 0x8000_0000
             && p + 20 + Two(h[6], h[7]) + Four(h[8], h[9], h[10], h[11]) < 0x1_0000_0000
    ensures Examine(flash, p, name) == Judged(ReadFlash(flash, p, 16), p,
        CString(ReadFlash(flash, p + 16, 256)) == name)
  {
    var h := ReadFlash(flash, p, 16);
    var n, m := Two(h[6], h[7]), Four(h[8], h[9], h[10], h[11]);
    MagicBytes(h);
    FieldValues(h);
    Places(p, n, m);
    hide CString, ReadFlash, Get16, Get32, Two, Four, Advance, Wrap, Align, Judged;
    Unfolded(flash, p, name, h, n, m);
  }

  lemma Places(p: nat, n: nat, m: nat)
    requires p + 20 + n + m < 0x1_0000_0000
    ensures Wrap(p + 16) == p + 16 && Advance(p + 16, n) == p + 16 + n
    ensures Align(Advance(p + 16, n + m)) == (p + 16 + n + m + 3) / 4 * 4
  {
    NoWrap(p + 16 + n + m);
    NextWord(p + 16 + n + m);
    hide Align;
  }

  lemma Unfolded(flash: seq<byte>, p: nat, name: seq<byte>, h: seq<byte>, n: nat, m: nat)
    requires h == ReadFlash(flash, p, 16) && n == Two(h[6], h[7]) && m == Four(h[8], h[9], h[10], h[11])
    requires Get32(h, 0) == MAGIC <==> h[..4] == [69, 83, 102, 115]
    requires Get16(h, 6) == n && Get32(h, 8) == m
    requires Wrap(p + 16) == p + 16 && Advance(p + 16, n) == p + 16 + n
    requires Align(Advance(p + 16, n + m)) == (p + 16 + n + m + 3) / 4 * 4
    ensures Examine(flash, p, name) == Judged(h, p, CString(ReadFlash(flash, p + 16, 256)) == name)
  {
    hide CString, ReadFlash, Get16, Get32, Two, Four, Advance, Wrap, Align;
  }

  lemma NextWord(n: nat)
    requires n + 4 < 0x1_0000_0000
    ensures Align(n) == (n + 3) / 4 * 4
  {
  }

  lemma MagicBytes(h: seq<byte>)
    requires |h| == 16
    ensures Get32(h, 0) == MAGIC <==> h[..4] == [69, 83, 102, 115]
  {
    assert h[0..4] == h[..4] == [h[0], h[1], h[2], h[3]];
    FourDigits(h[0], h[1], h[2], h[3]);
  }

  lemma FourDigits(a: byte, b: byte, c: byte, d: byte)
    ensures LittleEndian32([a, b, c, d]) == 0x73665345 <==> a == 69 && b == 83 && c == 102 && d == 115
  {
  }

  lemma FieldValues(h: seq<byte>)
    requires |h| == 16
    ensures var nameLen: nat, len: nat := Two(h[6], h[7]), Four(h[8], h[9], h[10], h[11]);
            (nameLen < 0x8000 ==> Get16(h, 6) == nameLen) && (len < 0x8000_0000 ==> Get32(h, 8) == len)
  {
    assert h[6..8] + [0, 0] == [h[6], h[7], 0, 0];
    assert h[8..12] == [h[8], h[9], h[10], h[11]];
  }

  /** Two files in an archive, byte by byte: "hi" as it is under the name "a", and two bytes that stand for five,
      compressed, under the name "abc". */
  lemma ImageBytes()
    ensures Image([File([97], [104, 105], 2, false), File([97, 98, 99], [31, 139], 5, true)]) ==
            [69, 83, 102, 115, 0, 0, 4, 0, 2, 0, 0, 0, 2, 0, 0, 0] + [97, 0, 0, 0] + [104, 105, 0, 0]
            + ([69, 83, 102, 115, 2, 0, 4, 0, 2, 0, 0, 0, 5, 0, 0, 0] + [97, 98, 99, 0] + [31, 139, 0, 0])
            + [69, 83, 102, 115, 1, 0, 0, 0, 0, 0, 0, 0, 0, 0, 0, 0]
  {
    var f, g := File([97], [104, 105], 2, false), File([97, 98, 99], [31, 139], 5, true);
    FirstEntry(f);
    SecondEntry(g);
    LastEntry();
    hide Entry, LastHeader;
    TwoEntries(f, g);
  }

  lemma TwoEntries(f: File, g: File)
    ensures Image([f, g]) == Entry(f) + Entry(g) + LastHeader()
  {
    hide Entry, LastHeader;
    assert [f, g][1..] == [g];
    assert Entries([g]) == Entry(g) + Entries([]);
  }

  lemma LastEntry()
    ensures LastHeader() == [69, 83, 102, 115, 1, 0, 0, 0, 0, 0, 0, 0, 0, 0, 0, 0]
  {
  }

  lemma FirstEntry(f: File)
    requires f == File([97], [104, 105], 2, false)
    ensures Entry(f) == [69, 83, 102, 115, 0, 0, 4, 0, 2, 0, 0, 0, 2, 0, 0, 0] + [97, 0, 0, 0] + [104, 105, 0, 0]
  {
    assert PaddedName(f.name) == [97, 0, 0, 0];
    assert f.stored + Zeros(2) == [104, 105, 0, 0];
  }

  lemma SecondEntry(g: File)
    requires g == File([97, 98, 99], [31, 139], 5, true)
    ensures Entry(g) == [69, 83, 102, 115, 2, 0, 4, 0, 2, 0, 0, 0, 5, 0, 0, 0] + [97, 98, 99, 0] + [31, 139, 0, 0]
  {
    assert PaddedName(g.name) == [97, 98, 99, 0];
    assert g.stored + Zeros(2) == [31, 139, 0, 0];
  }
}
