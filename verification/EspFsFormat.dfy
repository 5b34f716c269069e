/**
 The EspFS archive (`espfsformat.h`) and its writer, `mkespfsimage/main.c`.
 */
module EspFsFormat {
  import opened Bytes
  import opened Wrappers

  const MAGIC: nat := 0x73665345   // 'E', 'S', 'f', 's'
  const FLAG_LASTFILE: byte := 1
  const FLAG_GZIP: byte := 2
  const COMPRESS_NONE: byte := 0
  const HEADER_SIZE: nat := 16

  /** A file as the archive has it: the bytes stored and the length of the original. */
  datatype File = File(name: seq<byte>, stored: seq<byte>, size: nat, gzip: bool)

  /** Names are C strings that fit the reader's buffer; lengths fit an int. */
  ghost predicate Storable(f: File) {
    |f.name| < 256 && 0 !in f.name && |f.stored| < 0x8000_0000 && f.size < 0x8000_0000
  }

  /** A compressed form is kept unless it is longer than the file. */
  function Chosen(name: seq<byte>, data: seq<byte>, gzip: Option<seq<byte>>): File {
    if gzip.Some? && |gzip.value| <= |data| then File(name, gzip.value, |data|, true)
    else File(name, data, |data|, false)
  }

  function Round4(n: nat): (r: nat)
    ensures r % 4 == 0 && n <= r < n + 4
  {
    (n + 3) / 4 * 4
  }

  /** The bytes of `htoxs` in memory; those of `htoxl` are `Le32`. */
  function Le16(n: nat): (r: seq<byte>)
    ensures |r| == 2
  {
    [Low8(n), Low8(n / 0x100)]
  }

  /** The fields of an `EspFsHeader` in memory. */
  function Header(flags: byte, compression: byte, nameLen: nat, comp: nat, decomp: nat): (r: seq<byte>)
    ensures |r| == HEADER_SIZE
  {
    Le32(MAGIC) + [flags, compression] + Le16(nameLen) + Le32(comp) + Le32(decomp)
  }

  function Entry(f: File): (r: seq<byte>)
    ensures |r| == HEADER_SIZE + Round4(|f.name| + 1) + Round4(|f.stored|) && |r| % 4 == 0
  {
    hide Round4, EntryHead, PaddedName, Zeros;
    Fours(Round4(|f.name| + 1), Round4(|f.stored|));
    EntryHead(f) + PaddedName(f.name) + (f.stored + Zeros(Round4(|f.stored|) - |f.stored|))
  }

  lemma Fours(a: nat, b: nat)
    requires a % 4 == 0 && b % 4 == 0
    ensures (HEADER_SIZE + a + b) % 4 == 0
  {
  }

  function EntryHead(f: File): (r: seq<byte>)
    ensures |r| == HEADER_SIZE
  {
    Header(if f.gzip then FLAG_GZIP else 0, COMPRESS_NONE, Round4(|f.name| + 1), |f.stored|, f.size)
  }

  function PaddedName(name: seq<byte>): (r: seq<byte>)
    ensures |r| == Round4(|name| + 1)
  {
    name + Zeros(Round4(|name| + 1) - |name|)
  }

  function LastHeader(): (r: seq<byte>)
    ensures |r| == HEADER_SIZE
  {
    Header(FLAG_LASTFILE, COMPRESS_NONE, 0, 0, 0)
  }

  function Entries(files: seq<File>): seq<byte> {
    if files == [] then [] else Entry(files[0]) + Entries(files[1..])
  }

  function Image(files: seq<File>): seq<byte> { Entries(files) + LastHeader() }

  lemma {:induction false} EntriesAppend(files: seq<File>, f: File)
    ensures Entries(files + [f]) == Entries(files) + Entry(f)
  {
    hide Entry;
    if files == [] {
      assert (files + [f])[1..] == [];
    } else {
      assert (files + [f])[1..] == files[1..] + [f];
      EntriesAppend(files[1..], f);
    }
  }

  // ---------------------------------------------------------------- the writer

  /** The output of mkespfsimage. */
  class Archive {
    var output: seq<byte>

    constructor ()
      ensures output == []
    {
      output := [];
    }

    /** `handleFile`, with the output of the compressor if the name asks for one. */
    method HandleFile(name: seq<byte>, data: seq<byte>, gzip: Option<seq<byte>>) returns (rate: nat)
      requires |data| > 0   // the rate is a percentage of it
      modifies this
      ensures output == old(output) + Entry(Chosen(name, data, gzip))
      ensures rate == Percentage(|Chosen(name, data, gzip).stored|, |data|)
    {
      hide Round4, Entry, Header, Zeros, Percentage;
      var cdat, flags := data, 0;
      if gzip.Some? {
        cdat, flags := gzip.value, FLAG_GZIP;
      }
      if |cdat| > |data| {
        cdat, flags := data, 0;
      }
      ghost var f := Chosen(name, data, gzip);
      assert f.stored == cdat && f.size == |data|;
      var nameLen := |name| + 1;
      var fieldLen := if nameLen % 4 != 0 then nameLen + 4 - nameLen % 4 else nameLen;
      RoundUp(nameLen);
      output := output + Header(flags, COMPRESS_NONE, fieldLen, |cdat|, |data|);
      output := output + (name + [0]);
      WritePadding(nameLen);
      output := output + cdat;
      WritePadding(|cdat|);
      rate := Percentage(|cdat|, |data|);
      EntryIs(old(output), f, output);
    }

    /** Zero bytes out to a 32-bit boundary. */
    method WritePadding(length: nat)
      modifies this
      ensures output == old(output) + Zeros(Round4(length) - length)
    {
      hide Round4;
      var n := length;
      while n % 4 != 0
        invariant length <= n <= Round4(length) && output == old(output) + Zeros(n - length)
        decreases Round4(length) - n
      {
        output := output + [0];
        n := n + 1;
        assert Zeros(n - 1 - length) + [0] == Zeros(n - length);
      }
      assert n == Round4(length);
    }

    /** `finishArchive`. */
    method FinishArchive()
      modifies this
      ensures output == old(output) + LastHeader()
    {
      output := output + Header(FLAG_LASTFILE, COMPRESS_NONE, 0, 0, 0);
    }
  }

  lemma EntryIs(before: seq<byte>, f: File, after: seq<byte>)
    requires after == before
                    + Header(if f.gzip then FLAG_GZIP else 0, COMPRESS_NONE, Round4(|f.name| + 1), |f.stored|, f.size)
                    + (f.name + [0]) + Zeros(Round4(|f.name| + 1) - (|f.name| + 1))
                    + f.stored + Zeros(Round4(|f.stored|) - |f.stored|)
    ensures after == before + Entry(f)
  {
    hide Header, Round4;
    var n := Round4(|f.name| + 1) - |f.name|;
    assert [0] + Zeros(n - 1) == Zeros(n);
    assert (f.name + [0]) + Zeros(n - 1) == PaddedName(f.name);
  }

  function Percentage(csize: nat, size: nat): nat
    requires size > 0
  {
    csize * 100 / size
  }

  lemma RoundUp(n: nat)
    ensures Round4(n) == if n % 4 == 0 then n else n + 4 - n % 4
  {
  }

  const PERIOD: byte := 46
  const SLASH: byte := 47

  /** A path from the list of files without its `./` or `/`. */
  function RealName(path: seq<byte>): seq<byte> {
    var name := if path != [] && path[0] == PERIOD then path[1..] else path;
    if name != [] && name[0] == SLASH then name[1..] else name
  }

  function FilesOf(paths: seq<seq<byte>>, datas: seq<seq<byte>>, gzips: seq<Option<seq<byte>>>): (files: seq<File>)
    requires |paths| == |datas| == |gzips|
    ensures |files| == |paths|
  {
    seq(|paths|, k requires 0 <= k < |paths| => Chosen(RealName(paths[k]), datas[k], gzips[k]))
  }

  /** The image of a list of files, as the program's main loop writes it. */
  method WriteImage(paths: seq<seq<byte>>, datas: seq<seq<byte>>, gzips: seq<Option<seq<byte>>>)
    returns (image: seq<byte>)
    requires |paths| == |datas| == |gzips|
    requires forall k :: 0 <= k < |datas| ==> |datas[k]| > 0
    ensures image == Image(FilesOf(paths, datas, gzips))
  {
    hide Chosen, Entry;
    var archive := new Archive();
    ghost var files := FilesOf(paths, datas, gzips);
    for k := 0 to |paths|
      invariant fresh(archive) && archive.output == Entries(files[..k])
    {
      var path := paths[k];
      var name := if path != [] && path[0] == PERIOD then path[1..] else path;
      if name != [] && name[0] == SLASH {
        name := name[1..];
      }
      var rate := archive.HandleFile(name, datas[k], gzips[k]);
      EntriesAppend(files[..k], files[k]);
      assert files[..k + 1] == files[..k] + [files[k]];
    }
    assert files[..|paths|] == files;
    archive.FinishArchive();
    image := archive.output;
  }
}
