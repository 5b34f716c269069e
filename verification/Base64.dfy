/** `base64.c`: the one-shot encoder and decoder, which shift all input through one 32-bit accumulator. */
module Base64 {
  import opened Bytes
  import opened Base64Spec

  /** `v << 8 | ch` and `v << 6 | ch` in 32 bits: older bits fall off the top. */
  function Shift8(v: nat, ch: byte): nat { (v * 256 + ch) % 0x1_0000_0000 }

  function Shift6(v: nat, ch: digit): nat { (v * 64 + ch) % 0x1_0000_0000 }

  // ---------------------------------------------------------------- encoding

  /** The accumulator's low sixteen bits are the last two octets. */
  ghost predicate Holds(v: nat, data: seq<byte>, n: nat) {
    n <= |data| && v % 0x1_0000 == Back(data, n, 2) * 256 + Back(data, n, 1)
  }

  /** Octet j back from position n. */
  ghost function Back(data: seq<byte>, n: nat, j: nat): byte
    requires n <= |data|
  {
    if 0 < j <= n then data[n - j] else 0
  }

  lemma HoldsNext(v: nat, data: seq<byte>, n: nat)
    requires Holds(v, data, n) && n < |data|
    ensures Holds(Shift8(v, data[n]), data, n + 1)
  {
    assert Back(data, n + 1, 2) == Back(data, n, 1);
    ShiftLow(v, Back(data, n, 2), Back(data, n, 1), data[n]);
  }

  lemma ShiftLow(v: nat, a: byte, b: byte, c: byte)
    requires v % 0x1_0000 == a * 256 + b
    ensures Shift8(v, c) % 0x1_0000 == b * 256 + c
  {
    Top16(v * 256 + c);
    Moved16(v / 0x1_0000, a, b, c);
    assert v == v / 0x1_0000 * 0x1_0000 + (a * 256 + b);
  }

  lemma Moved16(q: nat, a: byte, b: byte, c: byte)
    ensures ((q * 0x1_0000 + (a * 256 + b)) * 256 + c) % 0x1_0000 == b * 256 + c
  {
    Carry16(q * 256 + a, b * 256 + c);
  }

  lemma Carry16(q: nat, x: nat)
    ensures (q * 0x1_0000 + x) % 0x1_0000 == x % 0x1_0000
  {
  }

  lemma Top16(x: nat)
    ensures x % 0x1_0000_0000 % 0x1_0000 == x % 0x1_0000
  {
    var q := x / 0x1_0000_0000;
    assert x == q * 0x1_0000 * 0x1_0000 + x % 0x1_0000_0000;
    Carry16(q * 0x1_0000, x % 0x1_0000_0000);
  }

  /** `v >> rem & 63` for the shifts that occur. */
  function Taken(v: nat, rem: nat): digit {
    (if rem == 0 then v else if rem == 2 then v / 4 else if rem == 4 then v / 16 else v / 64) % 64
  }

  /** Where digit k ends `rem` bits before octet n does. */
  lemma Position(n: nat, k: nat, rem: nat)
    requires 8 * n == 6 * (k + 1) + rem && rem < 8
    ensures rem == 0 || rem == 2 || rem == 4 || rem == 6
    ensures rem == 2 ==> k % 4 == 0 && n == k / 4 * 3 + 1
    ensures rem == 4 ==> k % 4 == 1 && n == k / 4 * 3 + 2
    ensures rem == 6 ==> k % 4 == 2 && n == k / 4 * 3 + 3
    ensures rem == 0 ==> k % 4 == 3 && n == k / 4 * 3 + 3
  {
    assert 4 * n == 3 * (k + 1) + rem / 2;
  }

  /** The six bits above the `rem` lowest ones are the next digit. */
  lemma TakenIsSextet(v: nat, data: seq<byte>, n: nat, k: nat, rem: nat)
    requires Holds(v, data, n) && 8 * n == 6 * (k + 1) + rem && rem < 8
    ensures Taken(v, rem) == Sextet(data, k)
  {
    Position(n, k, rem);
    TakenLow(v, rem);
    TakenOf(Back(data, n, 2), Back(data, n, 1), rem);
    hide Taken, First, Second, Third, Fourth;
  }

  lemma TakenLow(v: nat, rem: nat)
    requires rem == 0 || rem == 2 || rem == 4 || rem == 6
    ensures Taken(v, rem) == Taken(v % 0x1_0000, rem)
  {
    var q, r := v / 0x1_0000, v % 0x1_0000;
    assert v == q * 0x1_0000 + r;
    if rem == 0 {
      Carry64(q * 0x400, r);
    } else if rem == 2 {
      assert v / 4 == q * 0x4000 + r / 4;
      Carry64(q * 0x100, r / 4);
    } else if rem == 4 {
      assert v / 16 == q * 0x1000 + r / 16;
      Carry64(q * 0x40, r / 16);
    } else {
      assert v / 64 == q * 0x400 + r / 64;
      Carry64(q * 0x10, r / 64);
    }
  }

  lemma Carry64(q: nat, x: nat)
    ensures (q * 64 + x) % 64 == x % 64
  {
  }

  lemma TakenOf(a: byte, b: byte, rem: nat)
    ensures Taken(a * 256 + b, 0) == Fourth(b) && Taken(a * 256 + b, 2) == First(b)
    ensures Taken(a * 256 + b, 4) == Second(a, b) && Taken(a * 256 + b, 6) == Third(a, b)
  {
    TakenTwo(a, b);
    TakenFour(a, b);
    TakenSix(a, b);
  }

  lemma TakenTwo(a: byte, b: byte)
    ensures Taken(a * 256 + b, 0) == Fourth(b) && Taken(a * 256 + b, 2) == First(b)
  {
    Carry64(a * 4, b);
    assert (a * 256 + b) / 4 == a * 64 + b / 4;
    Carry64(a, b / 4);
  }

  lemma TakenFour(a: byte, b: byte)
    ensures Taken(a * 256 + b, 4) == Second(a, b)
  {
    var q, r := a / 4, a % 4;
    assert (a * 256 + b) / 16 == q * 64 + (r * 16 + b / 16);
    Carry64(q, r * 16 + b / 16);
  }

  lemma TakenSix(a: byte, b: byte)
    ensures Taken(a * 256 + b, 6) == Third(a, b)
  {
    var q, r := a / 16, a % 16;
    assert (a * 256 + b) / 64 == q * 64 + (r * 4 + b / 64);
    Carry64(q, r * 4 + b / 64);
  }

  /** `(v << 6 - rem) & 63`: the bits left at the end, with zeros behind them. */
  function Aligned(v: nat, rem: nat): digit {
    (if rem == 2 then v * 16 else v * 4) % 0x1_0000_0000 % 64
  }

  lemma AlignedIsSextet(v: nat, data: seq<byte>, k: nat, rem: nat)
    requires Holds(v, data, |data|) && 8 * |data| == 6 * k + rem && 0 < rem < 6
    ensures Aligned(v, rem) == Sextet(data, k)
  {
    var n := |data|;
    assert 4 * n == 3 * k + rem / 2;
    var a, b := Back(data, n, 2), Back(data, n, 1);
    AlignedLow(v, a, b, rem);
    if rem == 2 {
      assert k % 4 == 1 && n == k / 4 * 3 + 1;
    } else {
      assert k % 4 == 2 && n == k / 4 * 3 + 2;
    }
    hide Aligned;
  }

  lemma AlignedLow(v: nat, a: byte, b: byte, rem: nat)
    requires v % 0x1_0000 == a * 256 + b
    ensures Aligned(v, 2) == Second(b, 0) && Aligned(v, 4) == Third(b, 0)
  {
    var q := (v / 0x1_0000) * 0x100 + a;
    assert v == q * 256 + b;
    AlignedTwo(q, b);
    AlignedFour(q, b);
  }

  lemma AlignedTwo(q: nat, b: byte)
    ensures Aligned(q * 256 + b, 2) == Second(b, 0)
  {
    SixtyFour((q * 256 + b) * 16);
    LowBits(b, 4);
    Carry64(q * 64 + b / 4, b % 4 * 16);
  }

  lemma AlignedFour(q: nat, b: byte)
    ensures Aligned(q * 256 + b, 4) == Third(b, 0)
  {
    SixtyFour((q * 256 + b) * 4);
    LowBits(b, 16);
    Carry64(q * 16 + b / 16, b % 16 * 4);
  }

  lemma LowBits(b: byte, k: nat)
    requires k == 4 || k == 16
    ensures b == b / k * k + b % k && 0 <= b % k < k
  {
  }

  lemma SixtyFour(x: nat)
    ensures x % 0x1_0000_0000 % 64 == x % 64
  {
    var q := x / 0x1_0000_0000;
    assert x == q * 0x400_0000 * 64 + x % 0x1_0000_0000;
    Carry64(q * 0x400_0000, x % 0x1_0000_0000);
  }

  // ---------------------------------------------------------------- output

  /** The first io characters of the text are out, and the rest of the buffer is as before. */
  ghost predicate Put(out: seq<byte>, io: nat, text: seq<byte>, before: seq<byte>) {
    io <= |text| && io <= |before| && out == text[..io] + before[io..]
  }

  lemma PutNothing(out: seq<byte>, text: seq<byte>)
    ensures Put(out, 0, text, out)
  {
  }

  lemma PutNext(out: seq<byte>, io: nat, text: seq<byte>, before: seq<byte>)
    requires Put(out, io, text, before) && io < |text| && io < |before|
    ensures |out| == |before| && Put(out[io := text[io]], io + 1, text, before)
  {
    assert text[..io + 1] == text[..io] + [text[io]];
    assert before[io..] == [before[io]] + before[io + 1..];
  }

  /** What a call leaves in its buffer: the text if there is room for it, and otherwise its start. */
  ghost predicate Outcome(r: int, length: nat, text: seq<byte>, before: seq<byte>, after: seq<byte>) {
    (r == length && Full(text, before, after)) || (r == -1 && Cut(text, before, after))
  }

  ghost predicate Full(text: seq<byte>, before: seq<byte>, after: seq<byte>) {
    |text| <= |before| && after == text + before[|text|..]
  }

  ghost predicate Cut(text: seq<byte>, before: seq<byte>, after: seq<byte>) {
    |text| > |before| && after == text[..|before|]
  }

  lemma NoRoom(out: seq<byte>, io: nat, text: seq<byte>, before: seq<byte>)
    requires Put(out, io, text, before) && io < |text| && io >= |before|
    ensures Cut(text, before, out)
  {
    assert before[io..] == [];
  }

  lemma AllOut(out: seq<byte>, text: seq<byte>, before: seq<byte>)
    requires Put(out, |text|, text, before)
    ensures Full(text, before, out)
  {
    assert text[..|text|] == text;
  }

  /** The next character of the output, if there is room. */
  method PutOne(out: array<byte>, io: nat, c: byte, ghost text: seq<byte>, ghost before: seq<byte>) returns (ok: bool)
    requires Put(out[..], io, text, before) && io < |text| && text[io] == c
    modifies out
    ensures ok ==> Put(out[..], io + 1, text, before)
    ensures !ok ==> Cut(text, before, out[..])
  {
    if io >= out.Length {
      NoRoom(out[..], io, text, before);
      return false;
    }
    PutNext(out[..], io, text, before);
    out[io] := c;
    return true;
  }

  /** The characters and their NUL. */
  function EncodedText(data: seq<byte>): (r: seq<byte>)
    ensures |r| > 0
  {
    Encoding(data) + [0]
  }

  lemma EncodingNext(data: seq<byte>, k: nat)
    requires 6 * k < 8 * |data|
    ensures k < |EncodedText(data)| - 1 && EncodedText(data)[k] == Letter(Sextet(data, k))
  {
    hide Sextet, Letter, Encoding;
    assert k < (|data| + 2) / 3 * 4;
    EncodingAt(data, k);
  }

  lemma EncodingPadding(data: seq<byte>, k: nat)
    requires 8 * |data| <= 6 * k && k <= |EncodedText(data)| - 1
    ensures k % 4 == 0 ==> k == |EncodedText(data)| - 1 && EncodedText(data)[k] == 0
    ensures k % 4 != 0 ==> k < |EncodedText(data)| - 1 && EncodedText(data)[k] == PADDING
  {
    hide Sextet, Letter, Encoding;
    Ceiling(|data|, k);
    if k % 4 != 0 {
      EncodingAt(data, k);
    }
  }

  lemma Ceiling(n: nat, k: nat)
    requires 8 * n <= 6 * k && k <= (n + 2) / 3 * 4
    ensures k % 4 == 0 ==> k == (n + 2) / 3 * 4
    ensures k % 4 != 0 ==> k < (n + 2) / 3 * 4
  {
  }

  /** `base64_encode`: the text and its NUL, or -1 exactly when they do not fit. */
  method Encode(data: seq<byte>, out: array<byte>) returns (r: int)
    modifies out
    ensures Outcome(r, |EncodedText(data)| - 1, EncodedText(data), old(out[..]), out[..])
  {
    hide EncodedText, Letter, Holds, Put, Shift8, Full, Cut, Bits;
    ghost var text, before := EncodedText(data), out[..];
    var io, ii, v, rem := 0, 0, 0, 0;
    PutNothing(before, text);
    HoldsNothing(data);
    BitsNone();
    while ii < |data|
      invariant ii <= |data| && Holds(v, data, ii) && Put(out[..], io, text, before)
      invariant Bits(ii, io, rem) && rem < 6
    {
      HoldsNext(v, data, ii);
      BitsIn(ii, io, rem);
      v := Shift8(v, data[ii]);
      rem := rem + 8;
      while rem >= 6
        invariant Holds(v, data, ii + 1) && Put(out[..], io, text, before)
        invariant Bits(ii + 1, io, rem) && rem < 14
      {
        BitsOut(ii + 1, io, rem);
        rem := rem - 6;
        var ok := PutDigit(out, io, v, rem, data, ii + 1, before);
        if !ok { return -1; }
        io := io + 1;
      }
      ii := ii + 1;
    }
    r := Rest(data, out, io, v, rem, before);
  }

  /** The bits of ii octets are those of io digits and `rem` more. */
  ghost predicate Bits(ii: nat, io: nat, rem: nat) { 8 * ii == 6 * io + rem }

  lemma BitsNone()
    ensures Bits(0, 0, 0)
  {
  }

  lemma BitsIn(ii: nat, io: nat, rem: nat)
    requires Bits(ii, io, rem)
    ensures Bits(ii + 1, io, rem + 8)
  {
  }

  lemma BitsOut(ii: nat, io: nat, rem: nat)
    requires Bits(ii, io, rem) && rem >= 6
    ensures Bits(ii, io + 1, rem - 6)
  {
  }

  /** The bits that are left, then the padding. */
  method Rest(data: seq<byte>, out: array<byte>, start: nat, v: nat, rem: nat, ghost before: seq<byte>) returns (r: int)
    requires Holds(v, data, |data|) && Bits(|data|, start, rem) && rem < 6
    requires Put(out[..], start, EncodedText(data), before)
    modifies out
    ensures Outcome(r, |EncodedText(data)| - 1, EncodedText(data), before, out[..])
  {
    hide EncodedText, Sextet, Letter, Holds, Put, Aligned, Full, Cut;
    var io := start;
    if rem != 0 {
      EncodingNext(data, io);
      AlignedIsSextet(v, data, io, rem);
      var ok := PutOne(out, io, Letter(Aligned(v, rem)), EncodedText(data), before);
      if !ok { return -1; }
      io := io + 1;
    }
    EncodingWithin(data, io);
    r := Pad(data, out, io, before);
  }

  /** The digit above the `rem` bits that are left. */
  method PutDigit(out: array<byte>, io: nat, v: nat, rem: nat, ghost data: seq<byte>, ghost n: nat,
                  ghost before: seq<byte>)
    returns (ok: bool)
    requires Holds(v, data, n) && Bits(n, io + 1, rem) && rem < 8 && n <= |data|
    requires Put(out[..], io, EncodedText(data), before)
    modifies out
    ensures ok ==> Put(out[..], io + 1, EncodedText(data), before)
    ensures !ok ==> Cut(EncodedText(data), before, out[..])
  {
    hide EncodedText, Sextet, Letter, Holds, Put, Taken, Cut;
    EncodingNext(data, io);
    TakenIsSextet(v, data, n, io, rem);
    ok := PutOne(out, io, Letter(Taken(v, rem)), EncodedText(data), before);
  }

  /** The padding characters and the NUL. */
  method Pad(data: seq<byte>, out: array<byte>, start: nat, ghost before: seq<byte>) returns (r: int)
    requires 8 * |data| <= 6 * start && start <= |EncodedText(data)| - 1
    requires Put(out[..], start, EncodedText(data), before)
    modifies out
    ensures Outcome(r, |EncodedText(data)| - 1, EncodedText(data), before, out[..])
  {
    hide EncodedText, Put, Full, Cut;
    ghost var text := EncodedText(data);
    var io := start;
    PutLength(out[..], io, text, before);
    while io % 4 != 0
      invariant 8 * |data| <= 6 * io && io <= |EncodedText(data)| - 1 && Put(out[..], io, text, before)
      decreases |text| - io
    {
      EncodingPadding(data, io);
      var ok := PutOne(out, io, PADDING, text, before);
      if !ok { return -1; }
      io := io + 1;
    }
    EncodingPadding(data, io);
    var ok := PutOne(out, io, 0, text, before);
    if !ok { return -1; }
    AllOut(out[..], text, before);
    return io;
  }

  lemma PutLength(out: seq<byte>, io: nat, text: seq<byte>, before: seq<byte>)
    requires Put(out, io, text, before)
    ensures |out| == |before|
  {
  }

  lemma HoldsNothing(data: seq<byte>)
    ensures Holds(0, data, 0)
  {
  }

  lemma EncodingWithin(data: seq<byte>, io: nat)
    requires 6 * io < 8 * |data| + 6
    ensures io <= |EncodedText(data)| - 1
  {
  }

  // ---------------------------------------------------------------- decoding

  /** The accumulator's low twelve bits are the last two digits. */
  ghost predicate HoldsDigits(v: nat, ds: seq<digit>, n: nat) {
    n <= |ds| && v % 0x1000 == BackDigit(ds, n, 2) * 64 + BackDigit(ds, n, 1)
  }

  ghost function BackDigit(ds: seq<digit>, n: nat, j: nat): digit
    requires n <= |ds|
  {
    if 0 < j <= n then ds[n - j] else 0
  }

  lemma DigitsNext(v: nat, ds: seq<digit>, n: nat)
    requires HoldsDigits(v, ds, n) && n < |ds|
    ensures HoldsDigits(Shift6(v, ds[n]), ds, n + 1)
  {
    assert BackDigit(ds, n + 1, 2) == BackDigit(ds, n, 1);
    ShiftSix(v, BackDigit(ds, n, 2), BackDigit(ds, n, 1), ds[n]);
  }

  lemma ShiftSix(v: nat, a: digit, b: digit, c: digit)
    requires v % 0x1000 == a * 64 + b
    ensures Shift6(v, c) % 0x1000 == b * 64 + c
  {
    Top12(v * 64 + c);
    Moved12(v / 0x1000, a, b, c);
    assert v == v / 0x1000 * 0x1000 + (a * 64 + b);
  }

  lemma Moved12(q: nat, a: digit, b: digit, c: digit)
    ensures ((q * 0x1000 + (a * 64 + b)) * 64 + c) % 0x1000 == b * 64 + c
  {
    Carry12(q * 64 + a, b * 64 + c);
  }

  lemma Carry12(q: nat, x: nat)
    ensures (q * 0x1000 + x) % 0x1000 == x % 0x1000
  {
  }

  lemma Top12(x: nat)
    ensures x % 0x1_0000_0000 % 0x1000 == x % 0x1000
  {
    var q := x / 0x1_0000_0000;
    assert x == q * 0x10_0000 * 0x1000 + x % 0x1_0000_0000;
    Carry12(q * 0x10_0000, x % 0x1_0000_0000);
  }

  /** `v >> rem & 255` for the shifts that occur. */
  function Eight(v: nat, rem: nat): byte {
    (if rem == 0 then v else if rem == 2 then v / 4 else v / 16) % 256
  }

  lemma EightIsOctet(v: nat, ds: seq<digit>, n: nat, m: nat, rem: nat)
    requires HoldsDigits(v, ds, n) && 6 * n == 8 * (m + 1) + rem && rem < 6
    ensures 8 * (m + 1) <= 6 * |ds| && Eight(v, rem) == OctetOf(ds, m)
  {
    assert 3 * n == 4 * (m + 1) + rem / 2;
    EightOf(v, BackDigit(ds, n, 2), BackDigit(ds, n, 1));
    if rem == 4 {
      assert m % 3 == 0 && n == m / 3 * 4 + 2;
    } else if rem == 2 {
      assert m % 3 == 1 && n == m / 3 * 4 + 3;
    } else {
      assert m % 3 == 2 && n == m / 3 * 4 + 4;
    }
    hide Eight, HighOctet, MiddleOctet, LowOctet;
  }

  lemma EightOf(v: nat, a: digit, b: digit)
    requires v % 0x1000 == a * 64 + b
    ensures Eight(v, 4) == HighOctet(a, b) && Eight(v, 2) == MiddleOctet(a, b) && Eight(v, 0) == LowOctet(a, b)
  {
    var q := v / 0x1000;
    assert v == q * 0x1000 + (a * 64 + b);
    assert v / 16 == q * 256 + (a * 4 + b / 16);
    Carry256(q, a * 4 + b / 16);
    var a4, a16 := a / 16, a / 4;
    assert v / 4 == (q * 4 + a4) * 256 + (a % 16 * 16 + b / 4);
    Carry256(q * 4 + a4, a % 16 * 16 + b / 4);
    assert v == (q * 16 + a16) * 256 + (a % 4 * 64 + b);
    Carry256(q * 16 + a16, a % 4 * 64 + b);
  }

  lemma Carry256(q: nat, x: nat)
    requires x < 256
    ensures (q * 256 + x) % 256 == x
  {
  }

  lemma DecodingNext(ds: seq<digit>, n: nat, m: nat, rem: nat)
    requires 6 * n == 8 * (m + 1) + rem && n <= |ds|
    ensures m < |Octets(ds)| && Octets(ds)[m] == OctetOf(ds, m)
  {
    hide Octets, OctetOf;
    assert m < |ds| * 6 / 8;
    OctetsAt(ds, m);
  }

  /** The digits before position ii are the first n of the text's. */
  ghost predicate Seen(text: seq<byte>, ii: nat, n: nat) {
    && ii <= |text| && n <= |Digits(text)|
    && Digits(text)[n..] == Digits(text[ii..])
  }

  lemma SeenNext(text: seq<byte>, ii: nat, n: nat)
    requires Seen(text, ii, n) && ii < |text|
    ensures var c := text[ii];
            if IsSpace(c) then Seen(text, ii + 1, n)
            else if c == PADDING || Value(c) == 255 then n == |Digits(text)|
            else n < |Digits(text)| && Digits(text)[n] == Value(c) && Seen(text, ii + 1, n + 1)
  {
    hide IsSpace, Value;
    var rest := text[ii..];
    assert rest[1..] == text[ii + 1..];
    assert Digits(text)[n..] == Digits(rest);
    if n < |Digits(text)| {
      assert Digits(text)[n..][1..] == Digits(text)[n + 1..];
      assert Digits(text)[n..][0] == Digits(text)[n];
    }
  }

  lemma SeenStart(text: seq<byte>)
    ensures Seen(text, 0, 0)
  {
    assert text[0..] == text;
  }

  lemma SeenEnd(text: seq<byte>, n: nat)
    requires Seen(text, |text|, n)
    ensures n == |Digits(text)|
  {
    assert text[|text|..] == [];
    assert |Digits(text)[n..]| == 0;
  }

  /** `base64_decode`: the octets, or -1 exactly when they do not fit. */
  method Decode(text: seq<byte>, out: array<byte>) returns (r: int)
    modifies out
    ensures Outcome(r, |Decoding(text)|, Decoding(text), old(out[..]), out[..])
  {
    hide Digits, Octets, OctetOf, IsSpace, Value, HoldsDigits, Put, Seen, Shift6, Eight, Full, Cut;
    ghost var ds, bytes, before, n := Digits(text), Decoding(text), out[..], 0;
    var io, v, rem := 0, 0, 0;
    PutNothing(before, bytes);
    SeenStart(text);
    NoDigits(ds);
    var ii := 0;
    while ii < |text|
      invariant ii <= |text| && n <= |ds| && HoldsDigits(v, ds, n) && Put(out[..], io, bytes, before)
      invariant 6 * n == 8 * io + rem && rem < 8
      invariant Seen(text, ii, n)
    {
      SeenNext(text, ii, n);
      ii := ii + 1;
      if IsSpace(text[ii - 1]) { continue; }
      if text[ii - 1] == PADDING { break; }
      var ch := Value(text[ii - 1]);
      if ch == 255 { break; }
      DigitsNext(v, ds, n);
      n := n + 1;
      v := Shift6(v, ch);
      rem := rem + 6;
      if rem >= 8 {
        rem := rem - 8;
        DecodingNext(ds, n, io, rem);
        EightIsOctet(v, ds, n, io, rem);
        var ok := PutOne(out, io, Eight(v, rem), bytes, before);
        if !ok { return -1; }
        io := io + 1;
      }
    }
    if ii == |text| && n < |ds| {
      SeenEnd(text, n);
    }
    if rem >= 8 {
      assert false;
    }
    assert io == |bytes|;
    AllOut(out[..], bytes, before);
    return io;
  }

  lemma NoDigits(ds: seq<digit>)
    ensures HoldsDigits(0, ds, 0)
  {
  }

  // ---------------------------------------------------------------- both ways

  /** A buffer encoded and decoded again holds the data, whatever its length. */
  method EncodeThenDecode(data: seq<byte>, text: array<byte>, out: array<byte>) returns (n: int, m: int)
    requires text != out
    modifies text, out
    ensures n == -1 <==> text.Length < (|data| + 2) / 3 * 4 + 1
    ensures n >= 0 ==> n == (|data| + 2) / 3 * 4
    ensures n >= 0 ==> (m == -1 <==> out.Length < |data|)
    ensures n >= 0 && m >= 0 ==> m == |data| && out[..m] == data
  {
    n := Encode(data, text);
    m := -1;
    if n >= 0 {
      assert text[..n] == Encoding(data) && |Encoding(data)| == (|data| + 2) / 3 * 4;
      RoundTrip(data);
      m := Decode(text[..n], out);
    }
  }
}
