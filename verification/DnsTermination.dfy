/**
 When the loop of `labelToStr` ends, and where it writes its NUL.
 */
module DnsTermination {
  import opened Bytes
  import opened Wrappers
  import opened DnsLabels
  import opened DnsNames
  import Loops

  // ---------------------------------------------------------------- the course of the loop

  /** A position in the packet, and a text that fits its buffer. */
  predicate InRange(size: nat, max: nat, c: Cursor) { c.p <= size && |c.text| <= max }

  function Step(mem: seq<byte>, size: nat, max: nat, c: Cursor): Option<Cursor>
    requires size + 2 <= |mem|
  {
    if !InRange(size, max, c) then None
    else
      var r := Examine(mem, size, max, c);
      if r.Again? then Some(r.c) else None
  }

  /** How many positions and lengths of the text there are. */
  function Bound(size: nat, max: nat): nat { (size + 1) * (max + 1) }

  /** A number for the position and the length of the text; cursors out of range have the last one. */
  function Key(size: nat, max: nat, c: Cursor): nat {
    if InRange(size, max, c) then c.p * (max + 1) + |c.text| else Bound(size, max)
  }

  lemma KeyBelow(size: nat, max: nat, c: Cursor)
    ensures Key(size, max, c) < Bound(size, max) + 1
    ensures InRange(size, max, c) ==> Key(size, max, c) < Bound(size, max)
  {
    if InRange(size, max, c) {
      Ordered(c.p, size, max + 1);
    }
  }

  lemma Ordered(a: nat, b: nat, k: nat)
    requires a <= b
    ensures a * k + k <= (b + 1) * k
  {
  }

  lemma KeyTells(size: nat, max: nat, c: Cursor, d: Cursor)
    requires Key(size, max, c) == Key(size, max, d)
    ensures InRange(size, max, c) == InRange(size, max, d)
    ensures InRange(size, max, c) ==> c.p == d.p && |c.text| == |d.text|
  {
    KeyBelow(size, max, c);
    KeyBelow(size, max, d);
    if InRange(size, max, c) {
      if c.p < d.p {
        Ordered(c.p, d.p - 1, max + 1);
      } else if d.p < c.p {
        Ordered(d.p, c.p - 1, max + 1);
      }
    }
  }

  /** What is copied depends on the position and the length of the text only. */
  lemma {:induction false} CopySame(mem: seq<byte>, size: nat, max: nat, c: Cursor, d: Cursor, n: nat)
    requires size < |mem| && c.p == d.p && |c.text| == |d.text|
    ensures var x, y := Copy(mem, size, max, c, n), Copy(mem, size, max, d, n);
            if x.None? then y.None? else y.Some? && x.value.p == y.value.p && |x.value.text| == |y.value.text|
    decreases n
  {
    if n > 0 && c.p <= size {
      if |c.text| < max {
        CopySame(mem, size, max, Cursor(c.text + [mem[c.p]], c.p + 1, c.end),
            Cursor(d.text + [mem[d.p]], d.p + 1, d.end), n - 1);
      } else {
        CopySame(mem, size, max, c, d, n - 1);
      }
    }
  }

  lemma ExamineSame(mem: seq<byte>, size: nat, max: nat, c: Cursor, d: Cursor)
    requires size + 2 <= |mem| && c.p == d.p <= size && |c.text| == |d.text|
    ensures var x, y := Examine(mem, size, max, c), Examine(mem, size, max, d);
            if x.Again? then y.Again? && x.c.p == y.c.p && |x.c.text| == |y.c.text| else !y.Again?
  {
    var s := if |c.text| < max && c.text != [] then c.text + [DOT] else c.text;
    var t := if |d.text| < max && d.text != [] then d.text + [DOT] else d.text;
    CopySame(mem, size, max, Cursor(s, c.p + 1, c.end), Cursor(t, d.p + 1, d.end), mem[c.p]);
    hide Copy, PointerTo;
  }

  lemma StepKeyed(mem: seq<byte>, size: nat, max: nat)
    requires size + 2 <= |mem|
    ensures Loops.Keyed(c => Step(mem, size, max, c), c => Key(size, max, c), Bound(size, max) + 1)
  {
    hide Bound;
    var step, key := (c: Cursor) => Step(mem, size, max, c), (c: Cursor) => Key(size, max, c);
    forall c: Cursor
      ensures key(c) < Bound(size, max) + 1
    {
      KeyBelow(size, max, c);
    }
    forall c: Cursor, d: Cursor | key(c) == key(d)
      ensures Loops.SameStep(step, key, c, d)
    {
      KeyTells(size, max, c, d);
      if InRange(size, max, c) {
        ExamineSame(mem, size, max, c, d);
      }
    }
  }

  lemma {:induction false} EndsIsHalts(mem: seq<byte>, size: nat, max: nat, c: Cursor, n: nat)
    requires size + 2 <= |mem| && InRange(size, max, c)
    ensures Ends(mem, size, max, c, n) <==> Loops.Halts(d => Step(mem, size, max, d), c, n)
    decreases n
  {
    hide Examine;
    var r := Examine(mem, size, max, c);
    if r.Again? && n > 0 {
      EndsIsHalts(mem, size, max, r.c, n - 1);
    }
  }

  /** The loop ends if and only if it does so in as many rounds as there are positions in the packet and
      lengths of the text. */
  lemma EndsExactly(mem: seq<byte>, size: nat, max: nat, c: Cursor)
    requires size + 2 <= |mem| && InRange(size, max, c)
    ensures (exists n: nat :: Ends(mem, size, max, c, n)) <==> Ends(mem, size, max, c, Bound(size, max))
  {
    hide Bound, Key;
    var step, bound := (d: Cursor) => Step(mem, size, max, d), Bound(size, max);
    if n: nat :| Ends(mem, size, max, c, n) {
      EndsIsHalts(mem, size, max, c, n);
      StepKeyed(mem, size, max);
      Loops.EndsSoon(step, d => Key(size, max, d), bound + 1, c, n);
      EndsIsHalts(mem, size, max, c, bound);
    }
  }

  // ---------------------------------------------------------------- loops that never end

  /** A pointer to itself, or a length byte with the reserved bits 01 or 10 (section 4.1.4 of RFC 1035). */
  predicate Stuck(mem: seq<byte>, size: nat, p: nat)
    requires p <= size && size + 2 <= |mem|
  {
    0x40 <= mem[p] < 0xC0 || (mem[p] >= 0xC0 && PointerTo(mem[p], mem[p + 1]) == p)
  }

  lemma {:induction false} StuckForever(mem: seq<byte>, size: nat, max: nat, c: Cursor, n: nat)
    requires c.p <= size && size + 2 <= |mem| && Stuck(mem, size, c.p)
    ensures !Ends(mem, size, max, c, n)
    decreases n
  {
    var r := Examine(mem, size, max, c);
    assert r.Again? && r.c.p == c.p;
    if n > 0 {
      StuckForever(mem, size, max, r.c, n - 1);
    }
  }

  /** Instances of both, each in a packet of two bytes at its start. */
  lemma StuckInstances(mem: seq<byte>, max: nat, n: nat)
    requires mem == [0xC0, 0, 0, 0] || mem == [0x40, 0, 0, 0] || mem == [0x80, 0, 0, 0]
    ensures !Ends(mem, 2, max, Cursor([], 0, None), n)
  {
    StuckForever(mem, 2, max, Cursor([], 0, None), n);
  }

  // ---------------------------------------------------------------- the NUL

  /** The text never shrinks. */
  lemma {:induction false} CopyGrows(mem: seq<byte>, size: nat, max: nat, c: Cursor, n: nat)
    requires size < |mem| && |c.text| <= max
    ensures var r := Copy(mem, size, max, c, n);
            r.Some? ==> |c.text| <= |r.value.text| && (|c.text| + n >= max ==> |r.value.text| == max)
    decreases n
  {
    if n > 0 && c.p <= size {
      if |c.text| < max {
        CopyGrows(mem, size, max, Cursor(c.text + [mem[c.p]], c.p + 1, c.end), n - 1);
      } else {
        CopyGrows(mem, size, max, c, n - 1);
      }
    }
  }

  lemma ExamineGrows(mem: seq<byte>, size: nat, max: nat, c: Cursor)
    requires size + 2 <= |mem| && InRange(size, max, c)
    ensures var r := Examine(mem, size, max, c); r.Again? || r.Ready? ==> |c.text| <= |r.c.text|
  {
    var s := if |c.text| < max && c.text != [] then c.text + [DOT] else c.text;
    CopyGrows(mem, size, max, Cursor(s, c.p + 1, c.end), mem[c.p]);
    hide Copy;
  }

  lemma {:induction false} ParseGrows(mem: seq<byte>, size: nat, max: nat, c: Cursor, n: nat)
    requires size + 2 <= |mem| && InRange(size, max, c) && Ends(mem, size, max, c, n)
    ensures var r := Parse(mem, size, max, c, n); r.Some? ==> |c.text| <= |r.value.text| <= max
    decreases n
  {
    ExamineGrows(mem, size, max, c);
    var r := Examine(mem, size, max, c);
    hide Examine;
    if r.Again? {
      ParseGrows(mem, size, max, r.c, n - 1);
    }
  }

  /** A label for which the text has no room fills it. */
  lemma LabelFills(mem: seq<byte>, size: nat, max: nat, c: Cursor, l: Label)
    requires IsLabel(l) && At(mem, c.p, [Low8(|l|)] + l) && size + 2 <= |mem| && InRange(size, max, c)
    requires |WithLabel(c.text, l)| > max
    ensures var r := Examine(mem, size, max, c); r.Again? || r.Ready? ==> |r.c.text| == max
  {
    hide At;
    AtParts(mem, c.p, [Low8(|l|)], l);
    AtByte(mem, c.p, Low8(|l|));
    assert Low8(|l|) == |l|;
    var s := if |c.text| < max && c.text != [] then c.text + [DOT] else c.text;
    CopyGrows(mem, size, max, Cursor(s, c.p + 1, c.end), |l|);
    hide Copy, Low8;
  }

  /** Labels for which the text has no room. */
  lemma {:induction false} LabelsFill(mem: seq<byte>, size: nat, max: nat, c: Cursor, labels: seq<Label>, n: nat)
    requires IsName(labels) && At(mem, c.p, Wire(labels)) && c.p + |Wire(labels)| <= size && size + 2 <= |mem|
    requires |c.text| <= max < |Dotted(c.text, labels)| && Ends(mem, size, max, c, n)
    ensures var r := Parse(mem, size, max, c, n); r.Some? ==> |r.value.text| == max
    decreases |labels|
  {
    var l, rest := labels[0], labels[1..];
    assert IsLabel(l) && labels == [l] + rest;
    WireFirst(l, rest);
    hide Wire, At;
    AtParts(mem, c.p, [Low8(|l|)] + l, Wire(rest));
    if |WithLabel(c.text, l)| > max {
      LabelFills(mem, size, max, c, l);
      StaysFull(mem, size, max, c, n);
    } else {
      ExamineLabel(mem, size, max, c, l);
      var d := Cursor(WithLabel(c.text, l), c.p + 1 + |l|, c.end);
      hide WithLabel, Examine;
      FirstLength(mem, d.p, rest);
      LabelsFill(mem, size, max, d, rest, n - 1);
    }
  }

  lemma StaysFull(mem: seq<byte>, size: nat, max: nat, c: Cursor, n: nat)
    requires size + 2 <= |mem| && InRange(size, max, c) && Ends(mem, size, max, c, n)
    requires var r := Examine(mem, size, max, c); r.Again? || r.Ready? ==> |r.c.text| == max
    ensures var r := Parse(mem, size, max, c, n); r.Some? ==> |r.value.text| == max
  {
    var r := Examine(mem, size, max, c);
    hide Examine;
    if r.Again? {
      ParseGrows(mem, size, max, r.c, n - 1);
    }
  }

  /** Labels for which there is room, passed on the way to the end. */
  lemma {:induction false} LabelsPassed(mem: seq<byte>, size: nat, max: nat, c: Cursor, labels: seq<Label>, n: nat)
    requires Ahead(mem, size, max, c, labels) && mem[After(c, labels).p] != 0 && Ends(mem, size, max, c, n)
    ensures |labels| <= n && Ends(mem, size, max, After(c, labels), n - |labels|)
    ensures Parse(mem, size, max, After(c, labels), n - |labels|) == Parse(mem, size, max, c, n)
    decreases |labels|
  {
    hide Examine, Ahead, After;
    if labels == [] {
      AfterNothing(c, labels);
    } else {
      AheadStep(mem, size, max, c, labels);
      if |labels| == 1 {
        AfterNothing(After(c, labels[..1]), labels[1..]);
      }
      LabelsPassed(mem, size, max, After(c, labels[..1]), labels[1..], n - 1);
    }
  }

  /** A name for which the text has no room. */
  lemma {:induction false} ChainFills(mem: seq<byte>, size: nat, max: nat, c: Cursor, segs: seq<Segment>, n: nat)
    requires Chain(mem, size, segs) && size + 2 <= |mem| && c.p == segs[0].place
    requires |c.text| <= max < |Dotted(c.text, AllLabels(segs))|
    requires c.p <= size && Ends(mem, size, max, c, n)
    ensures var r := Parse(mem, size, max, c, n); r.Some? ==> |r.value.text| == max
    decreases |segs|
  {
    FirstSegment(mem, size, segs);
    hide Examine, Dotted, Wire, Ahead, At, Pointer, Ends, Parse, Chain, IsName;
    var s, rest := segs[0], segs[1..];
    DottedTwice(c.text, s.labels, AllLabels(rest));
    if |Dotted(c.text, s.labels)| > max {
      LabelsFill(mem, size, max, c, s.labels, n);
    } else {
      FollowPointer(mem, size, max, c, segs, n);
      ChainFills(mem, size, max, Cursor(Dotted(c.text, s.labels), rest[0].place, Some(Stop(s) + 2)), rest,
          n - |s.labels| - 1);
    }
  }

  lemma FirstSegment(mem: seq<byte>, size: nat, segs: seq<Segment>)
    requires Chain(mem, size, segs)
    ensures IsName(segs[0].labels) && At(mem, segs[0].place, Wire(segs[0].labels)) && Stop(segs[0]) <= size
    ensures |segs| > 1 ==> Chain(mem, size, segs[1..])
    ensures AllLabels(segs) == segs[0].labels + AllLabels(segs[1..])
    ensures |segs| == 1 ==> AllLabels(segs) == segs[0].labels
  {
    hide Wire, At, Pointer, IsName;
    AtParts(mem, segs[0].place, Wire(segs[0].labels), if |segs| == 1 then [0] else Pointer(segs[1].place));
    assert segs[0].labels + [] == segs[0].labels;
  }

  lemma FollowPointer(mem: seq<byte>, size: nat, max: nat, c: Cursor, segs: seq<Segment>, n: nat)
    requires Chain(mem, size, segs) && size + 2 <= |mem| && c.p == segs[0].place <= size && |segs| > 1
    requires |Dotted(c.text, segs[0].labels)| <= max && Ends(mem, size, max, c, n)
    ensures |segs[0].labels| + 1 <= n && segs[1].place <= size
    ensures var e, m := Cursor(Dotted(c.text, segs[0].labels), segs[1].place, Some(Stop(segs[0]) + 2)),
        n - |segs[0].labels| - 1;
            Ends(mem, size, max, e, m) && Parse(mem, size, max, e, m) == Parse(mem, size, max, c, n)
  {
    hide Examine, Dotted, Wire, Ahead, At, Pointer;
    var s := segs[0];
    var d := After(c, s.labels);
    ChainStarts(mem, size, segs[1..]);
    StartAhead(mem, size, max, c, s.labels, Pointer(segs[1].place));
    ExaminePointer(mem, size, max, d, segs[1].place);
    LabelsPassed(mem, size, max, c, s.labels, n);
  }

  lemma {:induction false} ParseSame(mem: seq<byte>, size: nat, max: nat, c: Cursor, n: nat, m: nat)
    requires c.p <= size && size + 2 <= |mem| && Ends(mem, size, max, c, n) && Ends(mem, size, max, c, m)
    ensures Parse(mem, size, max, c, n) == Parse(mem, size, max, c, m)
    decreases n
  {
    hide Examine;
    var r := Examine(mem, size, max, c);
    if r.Again? {
      ParseSame(mem, size, max, r.c, n - 1, m - 1);
    }
  }

  /** A name of any length, if `labelToStr` ends and does not fail: the NUL is written behind a buffer of
      `max` bytes if and only if the text of the name has at least `max` bytes. */
  lemma NulOutside(mem: seq<byte>, size: nat, max: nat, segs: seq<Segment>, n: nat)
    requires Chain(mem, size, segs) && size + 2 <= |mem|
    ensures segs[0].place <= size && (Ends(mem, size, max, Cursor([], segs[0].place, None), n) ==>
      var r := Parse(mem, size, max, Cursor([], segs[0].place, None), n);
      r.Some? ==> (|r.value.text| == max <==> |Text(AllLabels(segs))| >= max))
  {
    ChainStarts(mem, size, segs);
    var c := Cursor([], segs[0].place, None);
    hide Chain, Ends, Parse, Dotted, AllLabels;
    if Ends(mem, size, max, c, n) {
      if |Text(AllLabels(segs))| > max {
        ChainFills(mem, size, max, c, segs, n);
      } else {
        ChainParsed(mem, size, max, c, segs);
        ParseSame(mem, size, max, c, n, Rounds(segs));
      }
    }
  }
}
