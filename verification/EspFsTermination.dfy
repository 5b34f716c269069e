/**
 When the search of `espFsOpen` ends.
 */
module EspFsTermination {
  import opened Bytes
  import opened Wrappers
  import opened EspFsFormat
  import opened EspFsImage
  import Loops

  /** An aligned address on the chip; there is nothing but ones beyond its end. */
  predicate OnChip(flash: seq<byte>, p: nat) { p % 4 == 0 && p < |flash| }

  function Step(flash: seq<byte>, name: seq<byte>, p: nat): Option<nat> {
    if !OnChip(flash, p) then None
    else
      match Examine(flash, p, name)
      case Next(q) => Some(q)
      case _ => None
  }

  /** How many aligned addresses the chip has. */
  function Words(flash: seq<byte>): nat { (|flash| + 3) / 4 }

  function Key(flash: seq<byte>, p: nat): nat { if OnChip(flash, p) then p / 4 else Words(flash) }

  lemma KeyTells(flash: seq<byte>, p: nat, q: nat)
    ensures Key(flash, p) < Words(flash) + 1
    ensures Key(flash, p) == Key(flash, q) && OnChip(flash, p) ==> p == q
    ensures Key(flash, p) == Key(flash, q) && !OnChip(flash, p) ==> !OnChip(flash, q)
  {
  }

  lemma StepKeyed(flash: seq<byte>, name: seq<byte>)
    ensures Loops.Keyed(p => Step(flash, name, p), p => Key(flash, p), Words(flash) + 1)
  {
    hide Words, Examine;
    var step, key := (p: nat) => Step(flash, name, p), (p: nat) => Key(flash, p);
    forall p: nat
      ensures key(p) < Words(flash) + 1
    {
      KeyTells(flash, p, p);
    }
    forall p: nat, q: nat | key(p) == key(q)
      ensures Loops.SameStep(step, key, p, q)
    {
      KeyTells(flash, p, q);
    }
  }

  /** Beyond the chip there is no header. */
  lemma NothingBeyond(flash: seq<byte>, p: nat, name: seq<byte>)
    requires p >= |flash|
    ensures Examine(flash, p, name) == Broken
  {
    var h := ReadFlash(flash, p, HEADER_SIZE);
    OnesBeyond(flash, p, 0);
    OnesBeyond(flash, p, 1);
    OnesBeyond(flash, p, 2);
    OnesBeyond(flash, p, 3);
    assert h[0..4] == [255, 255, 255, 255];
    hide ReadFlash;
  }

  lemma OnesBeyond(flash: seq<byte>, p: nat, i: nat)
    requires p >= |flash| && i < HEADER_SIZE
    ensures ReadFlash(flash, p, HEADER_SIZE)[i] == 255
  {
    assert ByteAt(flash, p + i) == 255;
  }

  lemma {:induction false} EndsIsHalts(flash: seq<byte>, p: nat, name: seq<byte>, n: nat)
    requires p % 4 == 0
    ensures Ends(flash, p, name, n) <==> Loops.Halts(q => Step(flash, name, q), p, n)
    decreases n
  {
    if p >= |flash| {
      NothingBeyond(flash, p, name);
    } else if n > 0 {
      match Examine(flash, p, name)
      case Next(q) =>
        NextAligned(flash, p, name, q);
        hide Examine;
        EndsIsHalts(flash, q, name, n - 1);
      case _ =>
    }
  }

  lemma NextAligned(flash: seq<byte>, p: nat, name: seq<byte>, q: nat)
    requires Examine(flash, p, name) == Next(q)
    ensures q % 4 == 0
  {
    hide Align, Get16, Get32, CString, ReadFlash;
  }

  /** The search ends if and only if it does so in as many steps as the chip has words. */
  lemma EndsExactly(flash: seq<byte>, p: nat, name: seq<byte>)
    requires p % 4 == 0
    ensures (exists n: nat :: Ends(flash, p, name, n)) <==> Ends(flash, p, name, Words(flash))
  {
    hide Words, Key;
    if n: nat :| Ends(flash, p, name, n) {
      EndsIsHalts(flash, p, name, n);
      StepKeyed(flash, name);
      Loops.EndsSoon(q => Step(flash, name, q), q => Key(flash, q), Words(flash) + 1, p, n);
      EndsIsHalts(flash, p, name, Words(flash));
    }
  }

  /** A header from which the search comes back to itself: the length of its content is -16. */
  const CIRCLE: seq<byte> := Le32(MAGIC) + [0, COMPRESS_NONE] + Le16(0) + Le32(-16) + Le32(0)

  lemma CircleExamined(flash: seq<byte>, p: nat, name: seq<byte>)
    requires At(flash, p, CIRCLE) && p % 4 == 0 && p + HEADER_SIZE < 0x1_0000_0000
    requires CString(ReadFlash(flash, p + HEADER_SIZE, NAMEBUF)) != name
    ensures Examine(flash, p, name) == Next(p)
  {
    CircleFields();
    assert |CIRCLE| == HEADER_SIZE;
    AtRead(flash, p, CIRCLE);
    BackAgain(p);
    hide Get16, Get32, CString, ReadFlash, CIRCLE, Wrap, Advance, Align;
  }

  lemma BackAgain(p: nat)
    requires p % 4 == 0 && p + HEADER_SIZE < 0x1_0000_0000
    ensures Wrap(p + HEADER_SIZE) == p + HEADER_SIZE && Align(Advance(p + HEADER_SIZE, 0 + -16)) == p
  {
    NoWrap(p);
    NoWrap(p + HEADER_SIZE);
    hide Wrap;
  }

  lemma CircleFields()
    ensures |CIRCLE| == HEADER_SIZE && Get32(CIRCLE, 0) == MAGIC && CIRCLE[4] == 0
    ensures Get16(CIRCLE, 6) == 0 && Get32(CIRCLE, 8) == -16
  {
    Le32Back(MAGIC);
    assert CIRCLE[0..4] == Le32(MAGIC);
    assert Le32(-16) == [240, 255, 255, 255];
    assert CIRCLE[8..12] == [240, 255, 255, 255];
    assert CIRCLE[6..8] == [0, 0];
  }

  lemma {:induction false} CircleForever(flash: seq<byte>, p: nat, name: seq<byte>, n: nat)
    requires At(flash, p, CIRCLE) && p % 4 == 0 && p + HEADER_SIZE < 0x1_0000_0000
    requires CString(ReadFlash(flash, p + HEADER_SIZE, NAMEBUF)) != name
    ensures !Ends(flash, p, name, n)
    decreases n
  {
    CircleExamined(flash, p, name);
    if n > 0 {
      CircleForever(flash, p, name, n - 1);
    }
  }

  /** An instance: a chip that holds such a header at its start and zeros behind it, searched for any
      file with a name. */
  lemma CircleInstance(flash: seq<byte>, name: seq<byte>, n: nat)
    requires flash == CIRCLE + Zeros(NAMEBUF) && name != []
    ensures !Ends(flash, 0, name, n)
  {
    CircleFields();
    assert flash[0..HEADER_SIZE] == CIRCLE;
    assert ReadFlash(flash, HEADER_SIZE, NAMEBUF)[0] == 0;
    CircleForever(flash, 0, name, n);
  }
}
