/**
 Names of a DNS packet, compressed or not, as `captdns.c` reads them and writes them back.
 */
module DnsNames {
  import opened Bytes
  import opened Wrappers
  import opened DnsLabels

  /** A stretch of labels in the packet; it ends in a zero byte or in a pointer to the next one. */
  datatype Segment = Segment(place: nat, labels: seq<Label>)

  /** Where the labels of a segment stop. */
  function Stop(s: Segment): nat { s.place + |Wire(s.labels)| }

  /** A name in the form of section 4.1.4 of RFC 1035, with any number of pointers. */
  ghost predicate Chain(mem: seq<byte>, size: nat, segs: seq<Segment>) {
    && segs != [] && IsName(segs[0].labels)
    && if |segs| == 1 then LastSegment(mem, size, segs[0])
       else Linked(mem, size, segs[0], segs[1].place) && Chain(mem, size, segs[1..])
  }

  ghost predicate LastSegment(mem: seq<byte>, size: nat, s: Segment) {
    s.labels != [] && At(mem, s.place, Wire(s.labels) + [0]) && Stop(s) < size
  }

  ghost predicate Linked(mem: seq<byte>, size: nat, s: Segment, next: nat) {
    next < 0x4000 && At(mem, s.place, Wire(s.labels) + Pointer(next)) && Stop(s) + 2 <= size
  }

  /** The expanded name. */
  function AllLabels(segs: seq<Segment>): seq<Label> {
    if segs == [] then [] else segs[0].labels + AllLabels(segs[1..])
  }

  /** How often the loop comes round: once for every label but the last and once for every pointer. */
  function Rounds(segs: seq<Segment>): nat
    requires segs != []
  {
    |segs[0].labels| + if |segs| == 1 then 0 else 1 + Rounds(segs[1..])
  }

  /** The position behind the last pointer. */
  function BehindLast(segs: seq<Segment>, end: Option<nat>): Option<nat>
    requires segs != []
    decreases |segs|
  {
    if |segs| == 1 then end else BehindLast(segs[1..], Some(Stop(segs[0]) + 2))
  }

  /** The position behind the name, as the packet goes on. */
  function BehindName(segs: seq<Segment>): nat
    requires segs != []
  {
    Stop(segs[0]) + if |segs| == 1 then 1 else 2
  }

  lemma ChainStarts(mem: seq<byte>, size: nat, segs: seq<Segment>)
    requires Chain(mem, size, segs) && size + 2 <= |mem|
    ensures segs[0].place <= size && mem[segs[0].place] != 0
  {
    var s := segs[0];
    if s.labels != [] {
      AtParts(mem, s.place, Wire(s.labels), if |segs| == 1 then [0] else Pointer(segs[1].place));
      FirstLength(mem, s.place, s.labels);
    } else {
      assert Wire(s.labels) + Pointer(segs[1].place) == Pointer(segs[1].place);
      assert mem[s.place..s.place + 2][0] == mem[s.place];
    }
  }

  /** `labelToStr` from anywhere in a name. */
  lemma {:induction false} ChainParsed(mem: seq<byte>, size: nat, max: nat, c: Cursor, segs: seq<Segment>)
    requires Chain(mem, size, segs) && size + 2 <= |mem| && c.p == segs[0].place
    requires |Dotted(c.text, AllLabels(segs))| <= max
    ensures c.p <= size && Ends(mem, size, max, c, Rounds(segs))
    ensures Parse(mem, size, max, c, Rounds(segs))
         == Some(Cursor(Dotted(c.text, AllLabels(segs)), Stop(segs[|segs| - 1]), BehindLast(segs, c.end)))
    decreases |segs|
  {
    hide Examine, Dotted, Wire, Ahead, At, Pointer;
    var s, rest := segs[0], segs[1..];
    ChainStarts(mem, size, segs);
    if rest == [] {
      assert AllLabels(segs) == s.labels + [] == s.labels;
      StartAhead(mem, size, max, c, s.labels, [0]);
      AtByte(mem, Stop(s), 0);
      LabelsLast(mem, size, max, c, s.labels);
    } else {
      DottedTwice(c.text, s.labels, AllLabels(rest));
      DottedGrows(Dotted(c.text, s.labels), AllLabels(rest));
      var d := After(c, s.labels);
      var e := Cursor(d.text, rest[0].place, Some(d.p + 2));
      ChainStarts(mem, size, rest);
      StartAhead(mem, size, max, c, s.labels, Pointer(rest[0].place));
      ExaminePointer(mem, size, max, d, rest[0].place);
      ChainParsed(mem, size, max, e, rest);
      Onward(mem, size, max, d, e, Rounds(rest));
      LabelsThen(mem, size, max, c, s.labels, Rounds(rest) + 1);
    }
  }

  lemma Onward(mem: seq<byte>, size: nat, max: nat, d: Cursor, e: Cursor, n: nat)
    requires d.p <= size && size + 2 <= |mem| && Examine(mem, size, max, d) == Again(e)
    requires e.p <= size && Ends(mem, size, max, e, n)
    ensures Ends(mem, size, max, d, n + 1) && Parse(mem, size, max, d, n + 1) == Parse(mem, size, max, e, n)
  {
    hide Examine;
  }

  // ---------------------------------------------------------------- the place behind the name

  /** Following lengths and pointers from p, a zero byte comes after exactly n of them. */
  ghost predicate Walk(mem: seq<byte>, p: nat, n: nat)
    decreases n
  {
    p + 2 <= |mem| &&
    if mem[p] == 0 then n == 0 else n > 0 && Walk(mem, Following(mem, p), n - 1)
  }

  function Following(mem: seq<byte>, p: nat): nat
    requires p + 2 <= |mem|
  {
    if mem[p] < 0x40 then p + 1 + mem[p] else PointerTo(mem[p], mem[p + 1])
  }

  lemma {:induction false} WalkUnique(mem: seq<byte>, p: nat, n: nat, m: nat)
    requires Walk(mem, p, n) && Walk(mem, p, m)
    ensures n == m
    decreases n
  {
    if n > 0 {
      WalkUnique(mem, Following(mem, p), n - 1, m - 1);
    }
  }

  lemma {:induction false} WalkLabels(mem: seq<byte>, p: nat, labels: seq<Label>, n: nat)
    requires IsName(labels) && At(mem, p, Wire(labels)) && Walk(mem, p + |Wire(labels)|, n)
    ensures Walk(mem, p, n + |labels|)
    decreases |labels|
  {
    hide Wire, At, Walk, IsName;
    if labels == [] {
      assert Wire(labels) == [] by {
        WireNothing();
      }
    } else {
      LabelAt(mem, p, labels);
      WalkLabels(mem, p + 1 + |labels[0]|, labels[1..], n);
      WalkOne(mem, p, n + |labels| - 1);
    }
  }

  lemma WireNothing()
    ensures Wire([]) == []
  {
  }

  /** The first of some labels in the packet, and the rest. */
  lemma LabelAt(mem: seq<byte>, p: nat, labels: seq<Label>)
    requires IsName(labels) && labels != [] && At(mem, p, Wire(labels))
    ensures p + 2 <= |mem| && mem[p] == |labels[0]| && 0 < mem[p] < 0x40
    ensures IsName(labels[1..]) && At(mem, p + 1 + |labels[0]|, Wire(labels[1..]))
    ensures |Wire(labels)| == 1 + |labels[0]| + |Wire(labels[1..])|
  {
    hide Wire, At, Low8, IsLabel;
    var l, rest := labels[0], labels[1..];
    assert IsLabel(l) && labels == [l] + rest;
    LengthByte(l);
    WireFirst(l, rest);
    AtParts(mem, p, [Low8(|l|)] + l, Wire(rest));
    AtParts(mem, p, [Low8(|l|)], l);
    AtByte(mem, p, Low8(|l|));
    AtEnds(mem, p + 1, l);
  }

  lemma LengthByte(l: Label)
    requires IsLabel(l)
    ensures Low8(|l|) == |l| && 0 < |l| < 0x40
  {
  }

  lemma AtEnds(mem: seq<byte>, p: nat, s: seq<byte>)
    requires At(mem, p, s)
    ensures p + |s| <= |mem|
  {
  }

  lemma WalkOne(mem: seq<byte>, p: nat, n: nat)
    requires p + 2 <= |mem| && 0 < mem[p] < 0x40 && Walk(mem, p + 1 + mem[p], n)
    ensures Walk(mem, p, n + 1)
  {
  }

  lemma WalkPointer(mem: seq<byte>, p: nat, to: nat, n: nat)
    requires to < 0x4000 && At(mem, p, Pointer(to)) && Walk(mem, to, n)
    ensures Walk(mem, p, n + 1)
  {
    assert mem[p..p + 2][0] == mem[p] && mem[p..p + 2][1] == mem[p + 1];
    PointerBack(to);
    hide PointerTo;
  }

  /** From the pointer that ends a segment, the walk takes the rounds of all later segments. */
  lemma {:induction false} WalkChain(mem: seq<byte>, size: nat, segs: seq<Segment>)
    requires Chain(mem, size, segs) && size + 2 <= |mem|
    ensures Walk(mem, segs[0].place, Rounds(segs))
    ensures |segs| > 1 ==> Walk(mem, Stop(segs[0]), 1 + Rounds(segs[1..]))
    decreases |segs|
  {
    hide Wire, At, Pointer;
    var s := segs[0];
    var n := Rounds(segs) - |s.labels|;
    AtParts(mem, s.place, Wire(s.labels), if |segs| == 1 then [0] else Pointer(segs[1].place));
    if |segs| == 1 {
      AtByte(mem, Stop(s), 0);
    } else {
      WalkChain(mem, size, segs[1..]);
      WalkPointer(mem, Stop(s), segs[1].place, Rounds(segs[1..]));
    }
    hide Walk;
    assert Walk(mem, Stop(s), n);
    WalkLabels(mem, s.place, s.labels, n);
  }

  /** The pointer that ends segment k is nearer to the end of the walk by at least k than the first one. */
  lemma {:induction false} WalkFromPointer(mem: seq<byte>, size: nat, segs: seq<Segment>, k: nat) returns (n: nat)
    requires Chain(mem, size, segs) && size + 2 <= |mem| && k + 1 < |segs|
    ensures Walk(mem, Stop(segs[k]), n) && n + k <= 1 + Rounds(segs[1..])
    decreases k
  {
    hide Walk, Linked, LastSegment;
    if k == 0 {
      WalkChain(mem, size, segs);
      n := 1 + Rounds(segs[1..]);
    } else {
      n := WalkFromPointer(mem, size, segs[1..], k - 1);
    }
  }

  /** In a chain of three segments or more the last pointer is not the first. */
  lemma PointersDiffer(mem: seq<byte>, size: nat, segs: seq<Segment>)
    requires Chain(mem, size, segs) && size + 2 <= |mem| && |segs| > 2
    ensures Stop(segs[|segs| - 2]) != Stop(segs[0])
  {
    hide Walk, Chain, Rounds;
    WalkChain(mem, size, segs);
    var n := WalkFromPointer(mem, size, segs, |segs| - 2);
    if Stop(segs[|segs| - 2]) == Stop(segs[0]) {
      WalkUnique(mem, Stop(segs[0]), 1 + Rounds(segs[1..]), n);
    }
  }

  lemma {:induction false} BehindLastIs(segs: seq<Segment>, end: Option<nat>)
    requires |segs| > 1
    ensures BehindLast(segs, end) == Some(Stop(segs[|segs| - 2]) + 2)
    decreases |segs|
  {
    if |segs| > 2 {
      BehindLastIs(segs[1..], Some(Stop(segs[0]) + 2));
    }
  }

  lemma {:induction false} ChainNames(mem: seq<byte>, size: nat, segs: seq<Segment>)
    requires Chain(mem, size, segs)
    ensures IsName(AllLabels(segs)) && AllLabels(segs) != []
  {
    if |segs| == 1 {
      assert AllLabels(segs) == segs[0].labels + [];
    } else {
      ChainNames(mem, size, segs[1..]);
    }
  }

  /** Every name, with any number of pointers: `labelToStr` ends with the dotted text of the expanded
      name, and `strToLabel` makes its wire form of it.  The position returned is the one behind the
      name exactly when the name has at most one pointer. */
  lemma NameRead(mem: seq<byte>, size: nat, max: nat, segs: seq<Segment>)
    requires Chain(mem, size, segs) && size + 2 <= |mem| && |Text(AllLabels(segs))| <= max
    ensures segs[0].place <= size && Ends(mem, size, max, Cursor([], segs[0].place, None), Rounds(segs))
    ensures var r := Parse(mem, size, max, Cursor([], segs[0].place, None), Rounds(segs));
            && r.Some?
            && r.value.text == Text(AllLabels(segs))
            && LabelForm(r.value.text) == Wire(AllLabels(segs)) + [0]
            && (Returned(r.value) == BehindName(segs) <==> |segs| <= 2)
  {
    hide Ends, Parse, LabelForm, Dotted, AllLabels, Wire;
    ChainNames(mem, size, segs);
    RoundTrip(AllLabels(segs));
    ChainParsed(mem, size, max, Cursor([], segs[0].place, None), segs);
    if |segs| > 1 {
      BehindLastIs(segs, None);
    }
    if |segs| > 2 {
      PointersDiffer(mem, size, segs);
    }
  }

  /** An instance: `a` with a pointer to `b` with a pointer to `c`.  The name takes four bytes, and
      position 8 is returned for what follows it. */
  lemma TwoPointers(mem: seq<byte>)
    requires mem == [1, 97, 0xC0, 4, 1, 98, 0xC0, 8, 1, 99, 0, 0, 0]
    ensures var segs := [Segment(0, [[97]]), Segment(4, [[98]]), Segment(8, [[99]])];
            && Chain(mem, 11, segs) && BehindName(segs) == 4
            && BehindLast(segs, None) == Some(8)
  {
    var a, b, c := Segment(0, [[97]]), Segment(4, [[98]]), Segment(8, [[99]]);
    OneLabel(97);
    OneLabel(98);
    OneLabel(99);
    hide Wire;
    assert mem[0..4] == Wire(a.labels) + Pointer(4);
    assert mem[4..8] == Wire(b.labels) + Pointer(8);
    assert mem[8..11] == Wire(c.labels) + [0];
    var segs := [a, b, c];
    assert segs[1..] == [b, c] && [b, c][1..] == [c];
    assert Chain(mem, 11, [c]) && Chain(mem, 11, [b, c]);
    assert BehindLast([c], Some(8)) == Some(8) && BehindLast([b, c], Some(4)) == Some(8);
  }

  lemma OneLabel(ch: byte)
    requires ch != DOT && ch != 0
    ensures Wire([[ch]]) == [1, ch] && IsName([[ch]])
  {
    WireFirst([ch], []);
    assert [[ch]] == [[ch]] + [];
  }
}
