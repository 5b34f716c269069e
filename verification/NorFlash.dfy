/**
 The SPI flash chip: erasing sets a whole sector to ones, writing can only clear bits.
 */
module NorFlash {
  import opened Bytes

  const SPI_FLASH_SEC_SIZE: nat := 4096

  /** `spi_flash_erase_sector`. */
  function EraseSector(flash: seq<byte>, sector: int): (r: seq<byte>)
    ensures |r| == |flash|
  {
    seq(|flash|, k requires 0 <= k < |flash| => if InSector(sector, k) then 255 else flash[k])
  }

  predicate InSector(sector: int, k: int) {
    sector * SPI_FLASH_SEC_SIZE <= k < (sector + 1) * SPI_FLASH_SEC_SIZE
  }

  /** `spi_flash_write`. */
  function Program(flash: seq<byte>, addr: int, data: seq<byte>): (r: seq<byte>)
    ensures |r| == |flash|
  {
    seq(|flash|, k requires 0 <= k < |flash| => if addr <= k < addr + |data| then And(flash[k], data[k - addr])
      else flash[k])
  }

  predicate OnSector(a: int) { a % SPI_FLASH_SEC_SIZE == 0 }

  /** The page size of an upload; 64 divides the sector size. */
  predicate OnPage(a: int) { a % 64 == 0 }

  /** The end of the sector that a byte just below `a` lies in; `a` itself on a sector boundary. */
  function SectorEnd(a: int): int { (a + 4095) / 4096 * 4096 }

  // ---------------------------------------------------------------- what is stored

  /** The chip holds `data` at `start`; the rest of the last sector touched is erased, and every
      other cell is as it was in `before`. */
  ghost predicate Holds(before: seq<byte>, flash: seq<byte>, start: nat, data: seq<byte>) {
    && |flash| == |before|
    && forall k :: 0 <= k < |flash| ==> flash[k] == CellAfter(before[k], start, data, k)
  }

  function CellAfter(before: byte, start: nat, data: seq<byte>, k: nat): byte {
    if start <= k < start + |data| then data[k - start]
    else if start + |data| <= k < SectorEnd(start + |data|) then 255
    else before
  }

  function ErasedIfNew(flash: seq<byte>, a: nat): (r: seq<byte>)
    ensures |r| == |flash|
  {
    if OnSector(a) then EraseSector(flash, a / SPI_FLASH_SEC_SIZE) else flash
  }

  lemma SectorEndOnBoundary(a: nat)
    requires OnSector(a)
    ensures SectorEnd(a) == a && a / 4096 * 4096 == a
    ensures forall k :: InSector(a / 4096, k) <==> a <= k < a + 4096
  {
  }

  /** A page never crosses a sector. */
  lemma SectorEndOfPage(a: nat, n: nat)
    requires OnPage(a) && 0 < n <= 64
    ensures SectorEnd(a + n) == if OnSector(a) then a + 4096 else SectorEnd(a)
    ensures a + n <= SectorEnd(a + n)
    ensures !OnSector(a) ==> a <= SectorEnd(a)
  {
    var q, r := a / 4096, a % 4096;
    assert r % 64 == 0;
    assert a + n + 4095 == 4096 * (q + 1) + (r + n - 1);
    if r != 0 {
      assert a + 4095 == 4096 * (q + 1) + (r - 1);
    }
  }

  /** One page: if a sector starts here, erase it; then write.  What was stored before stays, and
      the page is stored exactly, because it goes onto erased cells. */
  lemma PageStored(before: seq<byte>, flash: seq<byte>, start: nat, data: seq<byte>, page: seq<byte>)
    requires Holds(before, flash, start, data)
    requires OnPage(start + |data|) && 0 < |page| <= 64
    ensures var a := start + |data|;
            Holds(before, Program(ErasedIfNew(flash, a), a, page), start, data + page)
  {
    var a := start + |data|;
    var erased := ErasedIfNew(flash, a);
    var r := Program(erased, a, page);
    var onBoundary := OnSector(a);
    hide And, SectorEnd, OnSector, OnPage;
    SectorEndOfPage(a, |page|);
    if onBoundary {
      SectorEndOnBoundary(a);
    }
    assert forall k :: 0 <= k < |flash| ==> erased[k] == if onBoundary && a <= k < a + 4096 then 255 else flash[k];
    hide ErasedIfNew, EraseSector;
    forall k | 0 <= k < |r|
      ensures r[k] == CellAfter(before[k], start, data + page, k)
    {
      assert flash[k] == CellAfter(before[k], start, data, k);
      if a <= k < a + |page| {
        assert erased[k] == 255;
        AndFF(page[k - a]);
      }
    }
  }

  // ---------------------------------------------------------------- the order of operations

  datatype FlashOp = EraseOp(sector: nat) | WriteOp(addr: nat, len: nat)

  /** Cell k was erased, and not written since. */
  predicate Clean(ops: seq<FlashOp>, k: int) {
    if ops == [] then false else
      match ops[|ops| - 1]
      case EraseOp(sector) => InSector(sector, k) || Clean(ops[..|ops| - 1], k)
      case WriteOp(addr, len) => !(addr <= k < addr + len) && Clean(ops[..|ops| - 1], k)
  }

  /** Every write goes to clean cells, and to a higher address than every write before it. */
  ghost predicate Disciplined(ops: seq<FlashOp>) {
    if ops == [] then true else
      var prefix := ops[..|ops| - 1];
      && Disciplined(prefix)
      && match ops[|ops| - 1]
         case EraseOp(_) => true
         case WriteOp(addr, len) => WritesBelow(prefix, addr) && forall k :: addr <= k < addr + len ==> Clean(prefix, k)
  }

  ghost predicate WritesBelow(ops: seq<FlashOp>, a: int) {
    forall i :: 0 <= i < |ops| && ops[i].WriteOp? ==> ops[i].addr < a
  }

  /** Every operation stays within [lo, hi). */
  ghost predicate Within(ops: seq<FlashOp>, lo: int, hi: int) {
    forall i :: 0 <= i < |ops| ==>
      match ops[i]
      case EraseOp(sector) => lo <= sector * SPI_FLASH_SEC_SIZE && (sector + 1) * SPI_FLASH_SEC_SIZE <= hi
      case WriteOp(addr, len) => lo <= addr && addr + len <= hi
  }

  /** Where an upload that started at `start` and reached `a` stands. */
  ghost predicate Orderly(ops: seq<FlashOp>, start: nat, a: nat) {
    && Disciplined(ops)
    && WritesBelow(ops, a)
    && Within(ops, start, SectorEnd(a))
    && forall k :: a <= k < SectorEnd(a) ==> Clean(ops, k)
  }

  function PageOps(ops: seq<FlashOp>, a: nat, n: nat): seq<FlashOp> {
    ops + (if OnSector(a) then [EraseOp(a / SPI_FLASH_SEC_SIZE)] else []) + [WriteOp(a, n)]
  }

  lemma PageOrderly(ops: seq<FlashOp>, start: nat, a: nat, n: nat)
    requires Orderly(ops, start, a) && start <= a && OnPage(a) && 0 < n <= 64
    ensures Orderly(PageOps(ops, a, n), start, a + n)
  {
    hide SectorEnd, OnSector, OnPage, Disciplined, WritesBelow, Within, Clean;
    SectorEndOfPage(a, n);
    assert ops + [] == ops;
    if OnSector(a) {
      SectorErased(ops, start, a);
      PageWritten(ops + [EraseOp(a / 4096)], start, a, n, a + 4096);
    } else {
      PageWritten(ops, start, a, n, SectorEnd(a));
    }
  }

  /** A sector erased where the next page goes. */
  lemma SectorErased(ops: seq<FlashOp>, start: nat, a: nat)
    requires Disciplined(ops) && WritesBelow(ops, a) && Within(ops, start, SectorEnd(a)) && OnSector(a) && start <= a
    ensures var erased := ops + [EraseOp(a / 4096)];
            && Disciplined(erased) && WritesBelow(erased, a) && Within(erased, start, a + 4096)
            && forall k :: a <= k < a + 4096 ==> Clean(erased, k)
  {
    SectorEndOnBoundary(a);
    var erased := ops + [EraseOp(a / 4096)];
    assert erased[..|ops|] == ops;
    assert forall k :: a <= k < a + 4096 ==> InSector(a / 4096, k);
    hide SectorEnd, OnSector;
  }

  /** A page written on clean cells. */
  lemma PageWritten(ops: seq<FlashOp>, start: nat, a: nat, n: nat, end: int)
    requires Disciplined(ops) && WritesBelow(ops, a) && Within(ops, start, end)
    requires start <= a && 0 < n && a + n <= end && forall k :: a <= k < end ==> Clean(ops, k)
    ensures var r := ops + [WriteOp(a, n)];
            && Disciplined(r) && WritesBelow(r, a + n) && Within(r, start, end)
            && forall k :: a + n <= k < end ==> Clean(r, k)
  {
    var r := ops + [WriteOp(a, n)];
    assert r[..|ops|] == ops;
  }
}
