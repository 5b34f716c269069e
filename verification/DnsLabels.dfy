/**
 Names in the DNS server of `captdns.c`: from the labels of a packet (section 3.1 of RFC 1035, with the
 pointers of section 4.1.4) to a dotted string and back.
 */
module DnsLabels {
  import opened Bytes
  import opened Wrappers

  const DOT: byte := 46

  type Label = seq<byte>

  /** A name without its end: the length and the bytes of each label, a length as a char keeps it. */
  function Wire(labels: seq<Label>): seq<byte> {
    if labels == [] then [] else [Low8(|labels[0]|)] + labels[0] + Wire(labels[1..])
  }

  predicate IsLabel(l: Label) { 1 <= |l| <= 63 && 46 !in l && 0 !in l }

  ghost predicate IsName(labels: seq<Label>) { forall l <- labels :: IsLabel(l) }

  /** More labels behind a dotted string. */
  function Dotted(text: seq<byte>, labels: seq<Label>): seq<byte>
    decreases |labels|
  {
    if labels == [] then text else Dotted(WithLabel(text, labels[0]), labels[1..])
  }

  function WithLabel(text: seq<byte>, l: Label): seq<byte> { text + (if text == [] then [] else [46]) + l }

  function Text(labels: seq<Label>): seq<byte> { Dotted([], labels) }

  // ---------------------------------------------------------------- strToLabel

  /** The parts of a string between its dots. */
  function Parts(s: seq<byte>): (r: seq<seq<byte>>)
    ensures |r| > 0
  {
    if s == [] then [[]]
    else if s[0] == DOT then [[]] + Parts(s[1..])
    else
      var rest := Parts(s[1..]);
      [[s[0]] + rest[0]] + rest[1..]
  }

  /** The output of strToLabel for a C string. */
  function LabelForm(s: seq<byte>): seq<byte> { Wire(Parts(s)) + [0] }

  /** The string comes to the parts that are closed, the part under way continued by the rest, and what
      follows it. */
  ghost predicate Writing(closed: seq<byte>, part: seq<byte>, rest: seq<byte>, whole: seq<byte>) {
    LabelForm(whole) == closed + Wire([part + Parts(rest)[0]] + Parts(rest)[1..]) + [0]
  }

  lemma WritingStart(str: seq<byte>)
    ensures Writing([], [], str, str)
  {
    Headed(Parts(str));
    assert [] + Wire(Parts(str)) == Wire(Parts(str));
  }

  lemma PartsOfByte(rest: seq<byte>)
    requires rest != [] && rest[0] != DOT
    ensures Parts(rest)[0] == [rest[0]] + Parts(rest[1..])[0] && Parts(rest)[1..] == Parts(rest[1..])[1..]
  {
    var next := Parts(rest[1..]);
    var head := [rest[0]] + next[0];
    var tail := next[1..];
    assert Parts(rest) == [head] + tail;
    assert ([head] + tail)[1..] == tail;
  }

  lemma PartsOfDot(rest: seq<byte>)
    requires rest != [] && rest[0] == DOT
    ensures Parts(rest)[0] == [] && Parts(rest)[1..] == Parts(rest[1..])
  {
    var empty: seq<byte> := [];
    assert ([empty] + Parts(rest[1..]))[1..] == Parts(rest[1..]);
  }

  lemma WritingByte(closed: seq<byte>, part: seq<byte>, rest: seq<byte>, whole: seq<byte>)
    requires Writing(closed, part, rest, whole) && rest != [] && rest[0] != DOT
    ensures Writing(closed, part + [rest[0]], rest[1..], whole)
  {
    PartsOfByte(rest);
    hide Parts, Wire, LabelForm;
    var next := Parts(rest[1..]);
    assert part + ([rest[0]] + next[0]) == part + [rest[0]] + next[0];
  }

  lemma WireFirst(part: seq<byte>, next: seq<seq<byte>>)
    ensures Wire([part] + next) == [Low8(|part|)] + part + Wire(next)
  {
    assert ([part] + next)[1..] == next;
  }

  lemma Headed(parts: seq<seq<byte>>)
    requires |parts| > 0
    ensures [[] + parts[0]] + parts[1..] == parts
  {
    assert [] + parts[0] == parts[0];
  }

  lemma WritingDot(closed: seq<byte>, part: seq<byte>, rest: seq<byte>, whole: seq<byte>)
    requires Writing(closed, part, rest, whole) && rest != [] && rest[0] == DOT
    ensures Writing(closed + [Low8(|part|)] + part, [], rest[1..], whole)
  {
    hide Parts, Wire, LabelForm;
    PartsOfDot(rest);
    var next := Parts(rest[1..]);
    WireFirst(part, next);
    assert part + Parts(rest)[0] == part;
    assert LabelForm(whole) == closed + Wire([part] + next) + [0];
    Headed(next);
    ClosedPart(closed, [Low8(|part|)], part, Wire(next));
  }

  lemma ClosedPart(closed: seq<byte>, len: seq<byte>, part: seq<byte>, more: seq<byte>)
    ensures closed + (len + part + more) == closed + len + part + more
  {
  }

  lemma WritingEnd(closed: seq<byte>, part: seq<byte>, whole: seq<byte>)
    requires Writing(closed, part, [], whole)
    ensures LabelForm(whole) == closed + [Low8(|part|)] + part + [0]
  {
    var none: seq<seq<byte>> := [];
    WireFirst(part, none);
    assert Parts([])[1..] == none;
    assert part + Parts([])[0] == part;
    hide Parts, LabelForm;
    assert Wire(none) == [];
    assert closed + ([Low8(|part|)] + part + []) == closed + [Low8(|part|)] + part;
  }

  /** Room for what has been read so far is room in the result. */
  lemma WritingRoom(closed: seq<byte>, part: seq<byte>, rest: seq<byte>, whole: seq<byte>)
    requires Writing(closed, part, rest, whole)
    ensures |closed| + 1 + |part| + 1 <= |LabelForm(whole)|
    ensures rest != [] ==> |closed| + 1 + |part| + 2 <= |LabelForm(whole)|
  {
    if rest == [] {
      WritingEnd(closed, part, whole);
    } else if rest[0] == DOT {
      WritingDot(closed, part, rest, whole);
      WritingNext(closed + [Low8(|part|)] + part, [], rest[1..], whole);
    } else {
      WritingByte(closed, part, rest, whole);
      WritingNext(closed, part + [rest[0]], rest[1..], whole);
    }
  }

  lemma WritingNext(closed: seq<byte>, part: seq<byte>, rest: seq<byte>, whole: seq<byte>)
    requires Writing(closed, part, rest, whole)
    ensures |closed| + 1 + |part| + 1 <= |LabelForm(whole)|
  {
  }

  /** `strToLabel`; the caller owes it the room. */
  method StrToLabel(str: seq<byte>, buffer: array<byte>) returns (end: nat)
    requires |LabelForm(str)| <= buffer.Length
    modifies buffer
    ensures end == |LabelForm(str)| && buffer[..end] == LabelForm(str)
    ensures buffer[end..] == old(buffer[end..])
  {
    hide LabelForm, Writing;
    var len, p, k := 0, 1, 0;
    ghost var closed: seq<byte>, part: seq<byte> := [], [];
    WritingStart(str);
    assert str[0..] == str;
    WritingRoom([], [], str, str);
    while true
      invariant len == |closed| && p == len + 1 + |part| && k <= |str|
      invariant Writing(closed, part, str[k..], str) && p < buffer.Length
      invariant buffer[..len] == closed && buffer[len + 1..p] == part
      invariant forall j :: p <= j < buffer.Length ==> buffer[j] == old(buffer[j])
      decreases |str| - k
    {
      WritingRoom(closed, part, str[k..], str);
      if k == |str| || str[k] == DOT {
        buffer[len] := Low8(p - len - 1);
        assert buffer[..p] == closed + [Low8(|part|)] + part;
        if k == |str| {
          break;
        }
        WritingDot(closed, part, str[k..], str);
        closed, part := buffer[..p], [];
        assert str[k..][1..] == str[k + 1..];
        len := p;
        p := p + 1;
        k := k + 1;
      } else {
        WritingByte(closed, part, str[k..], str);
        buffer[p] := str[k];
        part := part + [str[k]];
        assert str[k..][1..] == str[k + 1..];
        p, k := p + 1, k + 1;
      }
    }
    WritingEnd(closed, part, str);
    len := p;
    p := p + 1;
    buffer[len] := 0;
    return p;
  }

  // ---------------------------------------------------------------- labelToStr

  /** The text so far, the position in the packet, and the position behind the last pointer. */
  datatype Cursor = Cursor(text: seq<byte>, p: nat, end: Option<nat>)

  datatype Turn = Failed | Ready(c: Cursor) | Again(c: Cursor)

  /** The loop that copies a label; once the text is full it stays where it is. */
  function Copy(mem: seq<byte>, size: nat, max: nat, c: Cursor, n: nat): (r: Option<Cursor>)
    requires size < |mem|
    ensures r.Some? && |c.text| <= max ==> |r.value.text| <= max
    decreases n
  {
    if n == 0 then Some(c)
    else if c.p > size then None
    else if |c.text| < max then Copy(mem, size, max, Cursor(c.text + [mem[c.p]], c.p + 1, c.end), n - 1)
    else Copy(mem, size, max, c, n - 1)
  }

  /** The loop body of `labelToStr`; `mem` is the packet with two bytes that follow it. */
  function Body(mem: seq<byte>, size: nat, max: nat, c: Cursor): (r: Option<Cursor>)
    requires c.p <= size && size + 2 <= |mem|
    ensures r.Some? && |c.text| <= max ==> |r.value.text| <= max
  {
    var b := mem[c.p];
    if b < 0x40 then
      var text := if |c.text| < max && c.text != [] then c.text + [DOT] else c.text;
      Copy(mem, size, max, Cursor(text, c.p + 1, c.end), b)
    else if b >= 0xC0 then
      var offset := PointerTo(b, mem[c.p + 1]);
      if offset > size then None else Some(Cursor(c.text, offset, Some(c.p + 2)))
    else Some(c)
  }

  function PointerTo(high: byte, low: byte): nat { (high * 0x100 + low) % 0x4000 }

  function Examine(mem: seq<byte>, size: nat, max: nat, c: Cursor): (r: Turn)
    requires c.p <= size && size + 2 <= |mem|
    ensures r.Ready? || r.Again? ==> r.c.p <= size && (|c.text| <= max ==> |r.c.text| <= max)
  {
    var r := Body(mem, size, max, c);
    if r.None? || r.value.p > size then Failed
    else if mem[r.value.p] != 0 then Again(r.value)
    else Ready(r.value)
  }

  lemma {:induction false} CopyOut(mem: seq<byte>, size: nat, max: nat, c: Cursor, n: nat)
    requires size < |mem| && |c.text| + n <= max
    ensures Copy(mem, size, max, c, n).None? <==> n > 0 && c.p + n > size + 1
    ensures Copy(mem, size, max, c, n).Some? ==> Copy(mem, size, max, c, n).value.p == c.p + n
    decreases n
  {
    if n > 0 && c.p <= size {
      CopyOut(mem, size, max, Cursor(c.text + [mem[c.p]], c.p + 1, c.end), n - 1);
    }
  }

  /** A label for which the text has no room: what fits is copied, and the loop comes round behind that, within the
      label. */
  lemma {:induction false} CopyStops(mem: seq<byte>, size: nat, max: nat, c: Cursor, n: nat)
    requires size < |mem| && |c.text| <= max <= |c.text| + n && c.p + (max - |c.text|) <= size
    ensures var r := max - |c.text|;
            Copy(mem, size, max, c, n) == Some(Cursor(c.text + mem[c.p..c.p + r], c.p + r, c.end))
    decreases n
  {
    if n > 0 && |c.text| < max {
      var d := Cursor(c.text + [mem[c.p]], c.p + 1, c.end);
      CopyStops(mem, size, max, d, n - 1);
      assert d.text + mem[d.p..c.p + (max - |c.text|)] == c.text + mem[c.p..c.p + (max - |c.text|)];
    } else {
      assert mem[c.p..c.p] == [];
      assert c.text + [] == c.text;
      if n > 0 {
        CopyStops(mem, size, max, c, n - 1);
      }
    }
  }

  /** While the text has room, a packet is refused exactly where a label or the target of a pointer lies beyond
      its end. */
  lemma Refused(mem: seq<byte>, size: nat, max: nat, c: Cursor)
    requires c.p <= size && size + 2 <= |mem|
    requires mem[c.p] < 64 ==> |c.text| + 1 + mem[c.p] <= max
    ensures var b: nat := mem[c.p];
            Examine(mem, size, max, c).Failed? <==>
              (b < 64 && c.p + 1 + b > size) || (b >= 192 && (b - 192) * 256 + mem[c.p + 1] > size)
  {
    var b: nat := mem[c.p];
    if b < 64 {
      var text := if |c.text| < max && c.text != [] then c.text + [DOT] else c.text;
      CopyOut(mem, size, max, Cursor(text, c.p + 1, c.end), b);
      hide Copy;
    } else if b >= 192 {
      Target(b, mem[c.p + 1]);
      hide PointerTo;
    }
  }

  lemma Target(high: byte, low: byte)
    requires high >= 192
    ensures PointerTo(high, low) == (high - 192) * 256 + low
  {
  }

  /** The loop ends after coming round n times. */
  ghost predicate Ends(mem: seq<byte>, size: nat, max: nat, c: Cursor, n: nat)
    requires c.p <= size && size + 2 <= |mem|
    decreases n
  {
    var r := Examine(mem, size, max, c);
    r.Again? ==> n > 0 && Ends(mem, size, max, r.c, n - 1)
  }

  ghost function Parse(mem: seq<byte>, size: nat, max: nat, c: Cursor, n: nat): (r: Option<Cursor>)
    requires c.p <= size && size + 2 <= |mem| && Ends(mem, size, max, c, n)
    ensures r.Some? && |c.text| <= max ==> |r.value.text| <= max
    decreases n
  {
    match Examine(mem, size, max, c)
    case Failed => None
    case Ready(d) => Some(d)
    case Again(d) => Parse(mem, size, max, d, n - 1)
  }

  /** The position that is returned: behind the last pointer followed, or behind the zero byte. */
  function Returned(c: Cursor): nat { if c.end.Some? then c.end.value else c.p + 1 }

  /** `labelToStr`, whenever it ends.  A text of `max` bytes has its NUL written behind them. */
  method LabelToStr(mem: seq<byte>, size: nat, start: nat, res: array<byte>, max: nat, ghost n: nat)
    returns (next: Option<nat>)
    requires start <= size && size + 2 <= |mem| && max <= res.Length
    requires Ends(mem, size, max, Cursor([], start, None), n)
    requires var r := Parse(mem, size, max, Cursor([], start, None), n); r.Some? ==> |r.value.text| < res.Length
    modifies res
    ensures match Parse(mem, size, max, Cursor([], start, None), n)
            case None => next.None?
            case Some(c) =>
              && next == Some(Returned(c))
              && res[..|c.text|] == c.text && res[|c.text|] == 0
  {
    hide Examine, PointerTo, Copy;
    var p: nat, end: Option<nat>, i: nat := start, None, 0;
    ghost var c, m: nat := Cursor([], start, None), n;
    ghost var whole := Parse(mem, size, max, c, n);
    while true
      invariant p <= size && i <= max && c == Cursor(res[..i], p, end)
      invariant Ends(mem, size, max, c, m) && Parse(mem, size, max, c, m) == whole
      decreases m
    {
      ghost var r := Body(mem, size, max, c);
      ExamineIs(mem, size, max, c);
      if mem[p] < 0x40 {
        var j := mem[p];
        p := p + 1;
        if i < max && i != 0 {
          res[i] := DOT;
          i := i + 1;
          assert res[..i] == c.text + [DOT];
        }
        ghost var d := Cursor(res[..i], p, end);
        assert r == Copy(mem, size, max, d, j);
        var ok;
        ok, i, p := CopyLabel(mem, size, res, max, i, p, j, end);
        if !ok { return None; }
      } else if mem[p] >= 0xC0 {
        end := Some(p + 2);
        var offset := PointerTo(mem[p], mem[p + 1]);
        if offset > size { return None; }
        p := offset;
      }
      if p > size { return None; }
      c := Cursor(res[..i], p, end);
      if mem[p] == 0 { break; }
      m := m - 1;
    }
    res[i] := 0;
    assert res[..i] == c.text;
    next := Some(if end.Some? then end.value else p + 1);
  }

  method CopyLabel(mem: seq<byte>, size: nat, res: array<byte>, max: nat, i0: nat, p0: nat, j: nat,
                   ghost end: Option<nat>)
    returns (ok: bool, i: nat, p: nat)
    requires i0 <= max <= res.Length && size < |mem|
    modifies res
    ensures match Copy(mem, size, max, Cursor(old(res[..i0]), p0, end), j)
            case None => !ok
            case Some(d) => ok && i <= max && d == Cursor(res[..i], p, end)
  {
    i, p := i0, p0;
    ghost var d := Cursor(res[..i], p, end);
    ghost var r := Copy(mem, size, max, d, j);
    for k := 0 to j
      invariant i <= max && d == Cursor(res[..i], p, end)
      invariant r == Copy(mem, size, max, d, j - k)
    {
      if p > size { return false, i, p; }
      if i < max {
        res[i] := mem[p];
        i := i + 1;
        p := p + 1;
        assert res[..i] == d.text + [mem[p - 1]];
        d := Cursor(res[..i], p, end);
      }
    }
    return true, i, p;
  }

  lemma ExamineIs(mem: seq<byte>, size: nat, max: nat, c: Cursor)
    requires c.p <= size && size + 2 <= |mem|
    ensures var r := Body(mem, size, max, c);
            Examine(mem, size, max, c) ==
            if r.None? || r.value.p > size then Failed else if mem[r.value.p] != 0 then Again(r.value)
              else Ready(r.value)
  {
  }

  // ---------------------------------------------------------------- names

  lemma {:induction false} CopyAll(mem: seq<byte>, size: nat, max: nat, c: Cursor, l: seq<byte>)
    requires size < |mem| && At(mem, c.p, l) && c.p + |l| <= size + 1 && |c.text| + |l| <= max
    ensures Copy(mem, size, max, c, |l|) == Some(Cursor(c.text + l, c.p + |l|, c.end))
    decreases |l|
  {
    if l == [] {
      assert c.text + l == c.text;
    } else {
      AtParts(mem, c.p, l[..1], l[1..]);
      assert l == l[..1] + l[1..];
      assert mem[c.p] == mem[c.p..c.p + |l|][0];
      CopyAll(mem, size, max, Cursor(c.text + [mem[c.p]], c.p + 1, c.end), l[1..]);
      assert c.text + [mem[c.p]] + l[1..] == c.text + l;
    }
  }

  /** One label is added to the text. */
  lemma ExamineLabel(mem: seq<byte>, size: nat, max: nat, c: Cursor, l: Label)
    requires IsLabel(l) && At(mem, c.p, [Low8(|l|)] + l) && c.p + 1 + |l| <= size && size + 2 <= |mem|
    requires |WithLabel(c.text, l)| <= max
    ensures var d := Cursor(WithLabel(c.text, l), c.p + 1 + |l|, c.end);
            Examine(mem, size, max, c) == if mem[d.p] != 0 then Again(d) else Ready(d)
  {
    hide Copy, At;
    AtParts(mem, c.p, [Low8(|l|)], l);
    AtByte(mem, c.p, Low8(|l|));
    assert Low8(|l|) == |l|;
    var text := if c.text != [] then c.text + [DOT] else c.text;
    assert WithLabel(c.text, l) == text + l;
    CopyAll(mem, size, max, Cursor(text, c.p + 1, c.end), l);
    hide WithLabel, Low8;
  }

  lemma {:induction false} DottedGrows(text: seq<byte>, labels: seq<Label>)
    ensures |text| <= |Dotted(text, labels)|
    decreases |labels|
  {
    if labels != [] {
      DottedGrows(WithLabel(text, labels[0]), labels[1..]);
    }
  }

  /** The packet at c continues with these labels, and the text has room for them. */
  ghost predicate Ahead(mem: seq<byte>, size: nat, max: nat, c: Cursor, labels: seq<Label>) {
    && IsName(labels) && At(mem, c.p, Wire(labels)) && c.p + |Wire(labels)| <= size && size + 2 <= |mem|
    && |Dotted(c.text, labels)| <= max
  }

  function After(c: Cursor, labels: seq<Label>): Cursor {
    Cursor(Dotted(c.text, labels), c.p + |Wire(labels)|, c.end)
  }

  /** The first of the labels ahead is read; if more follow, or anything but a zero, the loop goes on. */
  lemma AheadStep(mem: seq<byte>, size: nat, max: nat, c: Cursor, labels: seq<Label>)
    requires Ahead(mem, size, max, c, labels) && labels != []
    ensures var d := After(c, labels[..1]);
            && d.p < |mem|
            && Examine(mem, size, max, c) == (if mem[d.p] != 0 then Again(d) else Ready(d))
            && Ahead(mem, size, max, d, labels[1..]) && After(d, labels[1..]) == After(c, labels)
            && (|labels| > 1 ==> mem[d.p] != 0)
  {
    hide Examine, Wire, Dotted, WithLabel, After, Ahead, At;
    var l, rest := labels[0], labels[1..];
    assert labels == [l] + rest && labels[..1] == [l];
    AheadParts(mem, size, max, c, l, rest);
    AfterOne(c, l, rest);
    ExamineLabel(mem, size, max, c, l);
    if rest != [] {
      FirstLength(mem, c.p + 1 + |l|, rest);
    }
  }

  lemma AheadParts(mem: seq<byte>, size: nat, max: nat, c: Cursor, l: Label, rest: seq<Label>)
    requires Ahead(mem, size, max, c, [l] + rest)
    ensures IsLabel(l) && IsName(rest) && At(mem, c.p, [Low8(|l|)] + l) && At(mem, c.p + 1 + |l|, Wire(rest))
    ensures c.p + 1 + |l| <= size && size + 2 <= |mem| && |WithLabel(c.text, l)| <= max
    ensures Ahead(mem, size, max, After(c, [l]), rest)
  {
    hide Dotted, WithLabel, After, Wire, At;
    var labels := [l] + rest;
    assert labels[0] == l && labels[1..] == rest;
    assert IsLabel(labels[0]);
    AfterOne(c, l, rest);
    WireFirst(l, rest);
    AtParts(mem, c.p, [Low8(|l|)] + l, Wire(rest));
    DottedGrows(WithLabel(c.text, l), rest);
  }

  lemma AfterOne(c: Cursor, l: Label, rest: seq<Label>)
    requires |l| < 256
    ensures After(c, [l]) == Cursor(WithLabel(c.text, l), c.p + 1 + |l|, c.end)
    ensures After(After(c, [l]), rest) == After(c, [l] + rest)
    ensures Dotted(c.text, [l] + rest) == Dotted(WithLabel(c.text, l), rest)
    ensures After(c, rest).p == c.p + |Wire(rest)|
  {
    WireFirst(l, []);
    WireFirst(l, rest);
    assert [l] + [] == [l] && [l][1..] == [];
    assert ([l] + rest)[1..] == rest;
    assert Wire([l]) == [Low8(|l|)] + l + Wire([]);
    assert Dotted(WithLabel(c.text, l), []) == WithLabel(c.text, l);
  }

  lemma FirstLength(mem: seq<byte>, p: nat, labels: seq<Label>)
    requires IsName(labels) && labels != [] && At(mem, p, Wire(labels))
    ensures p < |mem| && mem[p] != 0
  {
    assert IsLabel(labels[0]);
    assert mem[p] == mem[p..p + |Wire(labels)|][0];
  }

  /** Labels with more behind them. */
  lemma {:induction false} LabelsThen(mem: seq<byte>, size: nat, max: nat, c: Cursor, labels: seq<Label>, n: nat)
    requires Ahead(mem, size, max, c, labels) && mem[After(c, labels).p] != 0
    requires Ends(mem, size, max, After(c, labels), n)
    ensures Ends(mem, size, max, c, n + |labels|)
    ensures Parse(mem, size, max, c, n + |labels|) == Parse(mem, size, max, After(c, labels), n)
    decreases |labels|
  {
    if labels != [] {
      hide Examine, Ahead, After;
      AheadStep(mem, size, max, c, labels);
      LabelsThen(mem, size, max, After(c, labels[..1]), labels[1..], n);
    }
  }

  /** The last labels of a name. */
  lemma {:induction false} LabelsLast(mem: seq<byte>, size: nat, max: nat, c: Cursor, labels: seq<Label>)
    requires Ahead(mem, size, max, c, labels) && mem[After(c, labels).p] == 0 && labels != []
    ensures Ends(mem, size, max, c, |labels|)
    ensures Parse(mem, size, max, c, |labels|) == Some(After(c, labels))
    decreases |labels|
  {
    hide Examine, Ahead, After;
    AheadStep(mem, size, max, c, labels);
    if |labels| > 1 {
      LabelsLast(mem, size, max, After(c, labels[..1]), labels[1..]);
    } else {
      AfterNothing(After(c, labels[..1]), labels[1..]);
    }
  }

  lemma AfterNothing(c: Cursor, none: seq<Label>)
    requires none == []
    ensures After(c, none) == c
  {
  }

  lemma StartAhead(mem: seq<byte>, size: nat, max: nat, c: Cursor, labels: seq<Label>, tail: seq<byte>)
    requires IsName(labels) && At(mem, c.p, Wire(labels) + tail) && c.p + |Wire(labels)| <= size && size + 2 <= |mem|
    requires |Dotted(c.text, labels)| <= max
    ensures Ahead(mem, size, max, c, labels) && At(mem, c.p + |Wire(labels)|, tail)
  {
    AtParts(mem, c.p, Wire(labels), tail);
  }

  lemma AtByte(mem: seq<byte>, p: nat, b: byte)
    requires At(mem, p, [b])
    ensures p < |mem| && mem[p] == b
  {
    assert mem[p..p + 1][0] == mem[p];
  }

  function Pointer(offset: nat): seq<byte>
    requires offset < 0x4000
  {
    [0xC0 + offset / 0x100, offset % 0x100]
  }

  lemma ExaminePointer(mem: seq<byte>, size: nat, max: nat, c: Cursor, offset: nat)
    requires offset < 0x4000 && At(mem, c.p, Pointer(offset)) && c.p <= size && offset <= size && size + 2 <= |mem|
    requires mem[offset] != 0
    ensures Examine(mem, size, max, c) == Again(Cursor(c.text, offset, Some(c.p + 2)))
    ensures mem[c.p] != 0
  {
    assert mem[c.p..c.p + 2][0] == mem[c.p] && mem[c.p..c.p + 2][1] == mem[c.p + 1];
    PointerBack(offset);
    hide PointerTo;
  }

  lemma PointerBack(offset: nat)
    requires offset < 0x4000
    ensures PointerTo(0xC0 + offset / 0x100, offset % 0x100) == offset
  {
    assert (0xC0 + offset / 0x100) * 0x100 + offset % 0x100 == 3 * 0x4000 + offset;
  }

  lemma {:induction false} DottedTwice(text: seq<byte>, front: seq<Label>, back: seq<Label>)
    ensures Dotted(text, front + back) == Dotted(Dotted(text, front), back)
    decreases |front|
  {
    if front == [] {
      assert front + back == back;
    } else {
      assert (front + back)[1..] == front[1..] + back;
      DottedTwice(WithLabel(text, front[0]), front[1..], back);
    }
  }

  // ---------------------------------------------------------------- round trip

  lemma {:induction false} PartsAppend(text: seq<byte>, l: Label)
    requires DOT !in l
    ensures Parts(text + [DOT] + l) == Parts(text) + [l]
  {
    if text == [] {
      PartsOne(l);
      assert text + [DOT] + l == [DOT] + l;
      assert ([DOT] + l)[1..] == l;
      assert Parts([DOT] + l) == [[]] + [l];
    } else {
      var s := text + [DOT] + l;
      assert s[0] == text[0] && s[1..] == text[1..] + [DOT] + l;
      PartsAppend(text[1..], l);
      assert (Parts(text[1..]) + [l])[1..] == Parts(text[1..])[1..] + [l];
    }
  }

  lemma {:induction false} PartsOne(l: Label)
    requires DOT !in l
    ensures Parts(l) == [l]
  {
    if l != [] {
      assert l[0] in l;
      PartsOne(l[1..]);
      assert [l[0]] + l[1..] == l;
    }
  }

  lemma {:induction false} PartsDotted(text: seq<byte>, labels: seq<Label>)
    requires IsName(labels) && text != []
    ensures Parts(Dotted(text, labels)) == Parts(text) + labels
    decreases |labels|
  {
    if labels != [] {
      var l := labels[0];
      assert IsLabel(l);
      PartsAppend(text, l);
      hide Parts;
      PartsDotted(WithLabel(text, l), labels[1..]);
      assert [l] + labels[1..] == labels;
      assert Parts(text) + [l] + labels[1..] == Parts(text) + labels;
    } else {
      assert Parts(text) + labels == Parts(text);
    }
  }

  /** A name turned into a string and back is the name on the wire, with its pointer followed. */
  lemma RoundTrip(labels: seq<Label>)
    requires IsName(labels) && labels != []
    ensures LabelForm(Text(labels)) == Wire(labels) + [0]
  {
    var l := labels[0];
    assert IsLabel(l);
    PartsOne(l);
    assert WithLabel([], l) == l;
    PartsDotted(l, labels[1..]);
    hide Parts, Wire;
    assert [l] + labels[1..] == labels;
  }
}
