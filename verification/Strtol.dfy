/**
 `esp_strtol` of `httpclient.c`: a number read from a C string, clamped to the range of a 32-bit long.
 */
module Strtol {
  import opened Bytes

  const LONG_MAX: nat := 0x7FFF_FFFF
  const LONG_MIN: int := -0x8000_0000
  const TWO_TO_THE_32: nat := 0x1_0000_0000

  predicate IsSpace(c: byte) { c == 32 || c == 9 || c == 10 || c == 13 }

  predicate IsUpper(c: byte) { 65 <= c <= 90 }

  predicate IsAlpha(c: byte) { IsUpper(c) || 97 <= c <= 122 }

  predicate IsDigit(c: byte) { 48 <= c <= 57 }

  /** What a character is worth as a digit; 36 when it is none. */
  function DigitValue(c: byte): nat {
    if IsDigit(c) then c - 48
    else if IsUpper(c) then c - 65 + 10
    else if IsAlpha(c) then c - 97 + 10
    else 36
  }

  /** The mathematical value of a string of digits. */
  function Value(ds: seq<byte>, base: nat): nat {
    if ds == [] then 0 else Value(ds[..|ds| - 1], base) * base + DigitValue(ds[|ds| - 1])
  }

  /** How many digits of the base the string starts with. */
  function DigitRun(s: seq<byte>, base: nat): (n: nat)
    ensures n <= |s|
    ensures forall k :: 0 <= k < n ==> DigitValue(s[k]) < base
    ensures n < |s| ==> DigitValue(s[n]) >= base
  {
    if |s| > 0 && DigitValue(s[0]) < base then 1 + DigitRun(s[1..], base) else 0
  }

  function SpaceRun(s: seq<byte>): (n: nat)
    ensures n <= |s|
    ensures forall k :: 0 <= k < n ==> IsSpace(s[k])
    ensures n < |s| ==> !IsSpace(s[n])
  {
    if |s| > 0 && IsSpace(s[0]) then 1 + SpaceRun(s[1..]) else 0
  }

  /** A C string in memory: some byte from `pos` on is NUL. */
  predicate IsCString(mem: seq<byte>, pos: nat) {
    exists k :: pos <= k < |mem| && mem[k] == 0
  }

  function Clamp(v: int): int {
    if v < LONG_MIN then LONG_MIN else if v > LONG_MAX then LONG_MAX else v
  }

  /** Where the digits start, in what base, and with what sign: after white space, a sign and a prefix. */
  datatype Start = Start(at: nat, base: nat, neg: bool)

  function StartOf(s: seq<byte>, base: nat): (r: Start)
    requires IsCString(s, 0)
  {
    var i := SpaceRun(s);
    assert i < |s| by { SpacesEnd(s); }
    var neg := s[i] == 45;
    var j := if s[i] == 45 || s[i] == 43 then i + 1 else i;
    var b := if j + 1 < |s| && s[j] == 48 then s[j + 1] else 0;
    if (base == 0 || base == 16) && (b == 120 || b == 88) then Start(j + 2, 16, neg)
    else if (base == 0 || base == 2) && (b == 98 || b == 66) then Start(j + 2, 2, neg)
    else Start(j, if base != 0 then base else if j < |s| && s[j] == 48 then 8 else 10, neg)
  }

  lemma SpacesEnd(s: seq<byte>)
    requires IsCString(s, 0)
    ensures SpaceRun(s) < |s|
  {
    var k :| 0 <= k < |s| && s[k] == 0;
  }

  /** What the number at the start of a C string is worth. */
  function StrtolValue(s: seq<byte>, base: nat): int
    requires IsCString(s, 0)
  {
    var st := StartOf(s, base);
    if st.at > |s| then 0
    else
      var v: int := Value(s[st.at..][..DigitRun(s[st.at..], st.base)], st.base);
      Clamp(if st.neg then -v else v)
  }

  /** Where the number ends; at the start of the string when there are no digits. */
  function StrtolEnd(s: seq<byte>, base: nat): nat
    requires IsCString(s, 0)
  {
    var st := StartOf(s, base);
    var n := if st.at > |s| then 0 else DigitRun(s[st.at..], st.base);
    if n == 0 then 0 else st.at + n
  }

  // ---------------------------------------------------------------- the overflow test

  lemma MulMonotone(a: int, b: int, k: nat)
    requires a <= b
    ensures a * k <= b * k
  {
  }

  /** The test against `cutoff` and `cutlim` fires exactly when the exact value would leave the range. */
  lemma CutoffIsExact(acc: nat, c: nat, base: nat, limit: nat)
    requires base >= 2 && c < base
    ensures (acc > limit / base || (acc == limit / base && c > limit % base)) <==> acc * base + c > limit
  {
    var q := limit / base;
    assert limit == q * base + limit % base;
    if acc > q {
      MulMonotone(q + 1, acc, base);
      assert (q + 1) * base == q * base + base;
    } else if acc < q {
      MulMonotone(acc + 1, q, base);
      assert (acc + 1) * base == acc * base + base;
    }
  }

  lemma ValueGrows(v: nat, c: nat, base: nat, limit: nat)
    requires base >= 2 && v > limit
    ensures v * base + c > limit
  {
    MulMonotone(1, base, v);
  }

  lemma ValueNone(base: nat)
    ensures Value([], base) == 0
  {
  }

  lemma ValueAppend(ds: seq<byte>, d: byte, base: nat)
    ensures Value(ds + [d], base) == Value(ds, base) * base + DigitValue(d)
  {
    assert (ds + [d])[..|ds|] == ds;
  }

  // ---------------------------------------------------------------- the code

  predicate Cuts(limit: nat, base: nat, cutoff: nat, cutlim: nat)
    requires base > 0
  {
    cutoff == limit / base && cutlim == limit % base
  }

  method Cutoffs(limit: nat, base: nat) returns (cutoff: nat, cutlim: nat)
    requires base > 0
    ensures Cuts(limit, base, cutoff, cutlim)
  {
    cutoff := limit;
    cutlim := cutoff % base;
    cutoff := cutoff / base;
  }

  /** The loop over the digits of `rest`: -1 in `any` for overflow, and the position behind the
      last character read. */
  method ReadDigits(rest: seq<byte>, base: nat, neg: bool) returns (acc: nat, any: int, s: nat)
    requires 2 <= base <= 36
    requires IsCString(rest, 0)
    ensures var n := DigitRun(rest, base);
            var v := Value(rest[..n], base);
            var limit := if neg then -LONG_MIN else LONG_MAX;
            && s == n + 1
            && any == (if n == 0 then 0 else if v > limit then -1 else 1)
            && (any >= 0 ==> acc == v <= limit)
  {
    var limit: nat := if neg then -LONG_MIN else LONG_MAX;
    var cutoff, cutlim := Cutoffs(limit, base);
    hide Cuts;
    acc, any, s := 0, 0, 0;
    ghost var n := DigitRun(rest, base);
    RunEnds(rest, base);
    ValueNone(base);
    hide Value, DigitRun, IsCString, DigitValue;
    var c := rest[s];
    s := s + 1;
    while true
      invariant 0 < s <= n + 1 && c == rest[s - 1]
      invariant any == 0 <==> s == 1
      invariant any >= 0 ==> acc == Value(rest[..s - 1], base) <= limit
      invariant any < 0 ==> any == -1 && Value(rest[..s - 1], base) > limit
      invariant any <= 1
      decreases |rest| - s
    {
      var d := DigitValue(c);   // neither digit nor letter: the other way out of the loop
      if d >= base {
        break;
      }
      any, acc := OneDigit(acc, any, d, base, cutoff, cutlim, limit, rest, s - 1);
      c := rest[s];
      s := s + 1;
    }
  }

  /** The loop body, for a digit worth `d` at position k. */
  method OneDigit(acc0: nat, any0: int, d: nat, base: nat, cutoff: nat, cutlim: nat, limit: nat,
                  ghost rest: seq<byte>, ghost k: nat)
    returns (any: int, acc: nat)
    requires 2 <= base <= 36 && d < base && limit <= -LONG_MIN
    requires Cuts(limit, base, cutoff, cutlim)
    requires k < |rest| && d == DigitValue(rest[k])
    requires any0 >= 0 ==> acc0 == Value(rest[..k], base)
    requires any0 < 0 ==> Value(rest[..k], base) > limit
    ensures any == (if Value(rest[..k + 1], base) > limit then -1 else 1)
    ensures any == 1 ==> acc == Value(rest[..k + 1], base) < TWO_TO_THE_32
  {
    hide Value;
    assert rest[..k + 1] == rest[..k] + [rest[k]];
    ValueAppend(rest[..k], rest[k], base);
    if any0 >= 0 {
      CutoffIsExact(acc0, d, base, limit);
    } else {
      ValueGrows(Value(rest[..k], base), d, base, limit);
    }
    if any0 < 0 || acc0 > cutoff || (acc0 == cutoff && d > cutlim) {
      any, acc := -1, acc0;
    } else {
      any := 1;
      acc := acc0 * base;
      acc := acc + d;
    }
  }

  lemma RunEnds(s: seq<byte>, base: nat)
    requires IsCString(s, 0) && base <= 36
    ensures DigitRun(s, base) < |s|
  {
    var k :| 0 <= k < |s| && s[k] == 0;
  }

  /** Skip white space; c is the character at s - 1. */
  method SkipSpace(str: seq<byte>) returns (c: byte, s: nat)
    requires IsCString(str, 0)
    ensures s == SpaceRun(str) + 1 <= |str| && c == str[s - 1]
    ensures IsCString(str, s - 1)
  {
    SpacesEnd(str);
    s := 0;
    ghost var i := SpaceRun(str);
    c := str[s];
    s := s + 1;
    while IsSpace(c)
      invariant 0 < s <= i + 1 && c == str[s - 1]
      decreases |str| - s
    {
      c := str[s];
      s := s + 1;
    }
    CStringFrom(str, s - 1);
  }

  /** White space, sign and prefix; the digits are read from `from` on. */
  method ReadStart(str: seq<byte>, base0: nat) returns (from: nat, base: nat, neg: bool)
    requires base0 == 0 || 2 <= base0 <= 36
    requires IsCString(str, 0)
    ensures Start(from, base, neg) == StartOf(str, base0)
    ensures IsCString(str, from) && 2 <= base <= 36
  {
    hide SpaceRun, IsCString;
    base, neg := base0, false;
    var c, s := SkipSpace(str);
    CStringNext(str, s - 1);
    if c == 45 {
      neg := true;
      c := str[s];
      s := s + 1;
    } else if c == 43 {
      c := str[s];
      s := s + 1;
    }
    CStringNext(str, s - 1);
    if c == 48 {
      CStringNext(str, s);
    }
    if (base == 0 || base == 16) && c == 48 && (str[s] == 120 || str[s] == 88) {
      c := str[s + 1];
      s := s + 2;
      base := 16;
    } else if (base == 0 || base == 2) && c == 48 && (str[s] == 98 || str[s] == 66) {
      c := str[s + 1];
      s := s + 2;
      base := 2;
    }
    if base == 0 {
      base := if c == 48 then 8 else 10;
    }
    from := s - 1;
  }

  lemma CStringNext(str: seq<byte>, at: nat)
    requires IsCString(str, at)
    ensures at < |str|
    ensures str[at] != 0 ==> at + 1 < |str| && IsCString(str, at + 1)
  {
  }

  /** `esp_strtol`: the value, and where `*endptr` is left, as an offset into the string. */
  method EspStrtol(str: seq<byte>, base0: nat) returns (value: int, end: nat)
    requires base0 == 0 || 2 <= base0 <= 36
    requires IsCString(str, 0)
    ensures value == StrtolValue(str, base0)
    ensures end == StrtolEnd(str, base0)
    ensures LONG_MIN <= value <= LONG_MAX
  {
    hide StartOf, Value, DigitRun, IsCString;
    var from, base, neg := ReadStart(str, base0);
    CStringTail(str, from);
    var acc, any, s := ReadDigits(str[from..], base, neg);
    if any < 0 {
      acc := if neg then LONG_MIN % TWO_TO_THE_32 else LONG_MAX;
    } else if neg {
      acc := -acc % TWO_TO_THE_32;
    }
    value := if acc > LONG_MAX then acc - TWO_TO_THE_32 else acc;   // an unsigned long, returned as a long
    end := if any != 0 then from + s - 1 else 0;
  }

  lemma CStringTail(str: seq<byte>, at: nat)
    requires IsCString(str, at)
    ensures at <= |str| && IsCString(str[at..], 0)
  {
    var k :| at <= k < |str| && str[k] == 0;
    assert str[at..][k - at] == 0;
  }

  /** A C string read up to a position before its NUL is a C string from there. */
  lemma CStringFrom(str: seq<byte>, at: nat)
    requires IsCString(str, 0) && at <= |str|
    requires forall k :: 0 <= k < at ==> str[k] != 0
    ensures IsCString(str, at)
    ensures str[at] != 0 ==> at + 1 < |str|
  {
    var k :| 0 <= k < |str| && str[k] == 0;
    assert k >= at;
  }

  /** A number in base 2 to 36, signed or not, in front of something that is not a digit: its
      mathematical value, clamped to the range of a long, however many digits it has. */
  lemma NumberRead(neg: bool, ds: seq<byte>, rest: seq<byte>, base: nat)
    requires 2 <= base <= 36
    requires |ds| > 0 && forall k :: 0 <= k < |ds| ==> DigitValue(ds[k]) < base
    requires IsCString(rest, 0) && !IsDigit(rest[0]) && !IsAlpha(rest[0])
    ensures var str := (if neg then [45] else []) + ds + rest;
            && IsCString(str, 0)
            && StrtolValue(str, base) == Clamp(if neg then -(Value(ds, base) as int) else Value(ds, base))
            && StrtolEnd(str, base) == |str| - |rest|
  {
    var sign: seq<byte> := if neg then [45] else [];
    var body := ds + rest;
    assert sign + ds + rest == sign + body;
    NumberBody(ds, rest, base);
    StartSigned(neg, body, base);
    Concluded(sign, ds, rest, base, base, neg);
  }

  lemma NumberBody(ds: seq<byte>, rest: seq<byte>, base: nat)
    requires 2 <= base <= 36
    requires |ds| > 0 && forall k :: 0 <= k < |ds| ==> DigitValue(ds[k]) < base
    requires IsCString(rest, 0) && !IsDigit(rest[0]) && !IsAlpha(rest[0])
    ensures var body := ds + rest;
            && IsCString(body, 0) && |body| > 1
            && DigitValue(body[0]) < base
            && (DigitValue(body[1]) < base || (!IsDigit(body[1]) && !IsAlpha(body[1])))
            && DigitRun(body, base) == |ds|
  {
    var body := ds + rest;
    var z :| 0 <= z < |rest| && rest[z] == 0;
    assert body[|ds| + z] == 0;
    assert body[0] == ds[0] && body[1] == if |ds| > 1 then ds[1] else rest[0];
    RunOf(ds, rest, base);
  }

  lemma Concluded(front: seq<byte>, ds: seq<byte>, rest: seq<byte>, base0: nat, base: nat, neg: bool)
    requires var str := front + (ds + rest);
             IsCString(str, 0) && StartOf(str, base0) == Start(|front|, base, neg)
    requires DigitRun(ds + rest, base) == |ds| > 0
    ensures var str := front + (ds + rest);
            && StrtolValue(str, base0) == Clamp(if neg then -(Value(ds, base) as int) else Value(ds, base))
            && StrtolEnd(str, base0) == |front| + |ds|
  {
    hide Value, DigitRun, StartOf, IsCString;
    var body := ds + rest;
    assert (front + body)[|front|..] == body;
    assert body[..|ds|] == ds;
  }

  lemma StartSigned(neg: bool, body: seq<byte>, base: nat)
    requires 2 <= base <= 36 && IsCString(body, 0) && |body| > 1
    requires DigitValue(body[0]) < base
    requires DigitValue(body[1]) < base || (!IsDigit(body[1]) && !IsAlpha(body[1]))
    ensures var str := (if neg then [45] else []) + body;
            IsCString(str, 0) && StartOf(str, base) == Start(if neg then 1 else 0, base, neg)
  {
    var sign: seq<byte> := if neg then [45] else [];
    var str := sign + body;
    var z :| 0 <= z < |body| && body[z] == 0;
    assert str[|sign| + z] == 0;
    assert str[|sign|] == body[0] && str[|sign| + 1] == body[1];
    assert SpaceRun(str) == 0;
  }

  lemma {:induction false} RunOf(ds: seq<byte>, rest: seq<byte>, base: nat)
    requires base <= 36 && forall k :: 0 <= k < |ds| ==> DigitValue(ds[k]) < base
    requires |rest| > 0 && DigitValue(rest[0]) >= base
    ensures DigitRun(ds + rest, base) == |ds|
  {
    if ds == [] {
      assert ds + rest == rest;
    } else {
      assert (ds + rest)[1..] == ds[1..] + rest;
      RunOf(ds[1..], rest, base);
    }
  }
}
