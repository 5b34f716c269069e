/**
 `esp_strtol` on printed numbers: in any base, with any digits, behind white space, a sign and a prefix.
 */
module StrtolPrinted {
  import opened Bytes
  import opened Digits
  import opened Strtol

  lemma DigitWorth(d: nat, style: Style)
    requires d < 36
    ensures DigitValue(Character(d, style)) == d
    ensures Character(d, style) !in {0, 9, 10, 13, 32, 43, 45}
    ensures Character(d, style) == 48 <==> d == 0
  {
    if d < 12 {
      assert d in {0, 1, 2, 3, 4, 5, 6, 7, 8, 9, 10, 11};
    } else if d < 24 {
      assert d in {12, 13, 14, 15, 16, 17, 18, 19, 20, 21, 22, 23};
    } else {
      assert d in {24, 25, 26, 27, 28, 29, 30, 31, 32, 33, 34, 35};
    }
  }

  predicate AllDigits(ds: seq<byte>, base: nat) { forall k :: 0 <= k < |ds| ==> DigitValue(ds[k]) < base }

  /** The value of a printed number is the number. */
  lemma {:induction false} PrintedValue(n: nat, base: nat, style: Style)
    requires 2 <= base <= 36
    ensures var ds := Printed(n, base, style);
            |ds| > 0 && AllDigits(ds, base) && Value(ds, base) == n && (n > 0 ==> ds[0] != 48)
  {
    hide DigitValue, Character, Value, AllDigits, Composed, Printed;
    var q, r := PrintedParts(n, base, style);
    if n < base {
      OneDigit(n, base, style);
    } else {
      PrintedValue(q, base, style);
      OneDigitMore(q, r, Printed(q, base, style), base, style);
    }
  }

  lemma PrintedParts(n: nat, base: nat, style: Style) returns (q: nat, r: nat)
    requires 2 <= base <= 36
    ensures r < base && n == Composed(q, r, base)
    ensures if n < base then Printed(n, base, style) == [Character(n, style)]
            else 0 < q < n && Printed(n, base, style) == Printed(q, base, style) + [Character(r, style)]
  {
    hide Character, Composed;
    QuotientRest(n, base);
    q, r := n / base, n % base;
  }

  lemma OneDigit(n: nat, base: nat, style: Style)
    requires n < base <= 36
    ensures var ds := [Character(n, style)]; AllDigits(ds, base) && Value(ds, base) == n && (n > 0 ==> ds[0] != 48)
  {
    DigitWorth(n, style);
    ValueNone(base);
    ValueAppend([], Character(n, style), base);
    assert [] + [Character(n, style)] == [Character(n, style)];
  }

  lemma OneDigitMore(q: nat, r: nat, ds: seq<byte>, base: nat, style: Style)
    requires r < base <= 36 && |ds| > 0 && AllDigits(ds, base) && Value(ds, base) == q
    ensures var all := ds + [Character(r, style)]; AllDigits(all, base) && Value(all, base) == Composed(q, r, base)
  {
    DigitWorth(r, style);
    ValueAppend(ds, Character(r, style), base);
  }

  function Composed(q: nat, r: nat, base: nat): nat { q * base + r }

  lemma QuotientRest(n: nat, base: nat)
    requires base > 0
    ensures Composed(n / base, n % base, base) == n && n % base < base
    ensures n >= base ==> n / base > 0
  {
  }

  /** Zeros in front change nothing. */
  lemma {:induction false} ZerosInFront(zeros: nat, ds: seq<byte>, base: nat)
    requires AllDigits(ds, base) && base > 0
    ensures var all := seq(zeros, _ => 48) + ds; AllDigits(all, base) && Value(all, base) == Value(ds, base)
    decreases |ds|
  {
    var front: seq<byte> := seq(zeros, _ => 48);
    if ds == [] {
      assert front + ds == front;
      OnlyZeros(zeros, base);
    } else {
      var last := |ds| - 1;
      ZerosInFront(zeros, ds[..last], base);
      hide DigitValue;
      assert ds == ds[..last] + [ds[last]];
      assert front + ds == (front + ds[..last]) + [ds[last]];
      ValueAppend(front + ds[..last], ds[last], base);
      ValueAppend(ds[..last], ds[last], base);
    }
  }

  lemma {:induction false} OnlyZeros(zeros: nat, base: nat)
    requires base > 0
    ensures AllDigits(seq(zeros, _ => 48), base) && Value(seq(zeros, _ => 48), base) == 0
  {
    if zeros > 0 {
      OnlyZeros(zeros - 1, base);
      ValueAppend(seq(zeros - 1, _ => 48), 48, base);
      assert seq(zeros - 1, _ => 48) + [48] == seq(zeros, _ => 48);
    }
  }

  // ---------------------------------------------------------------- what may stand in front

  /** A number as it may be written for a base, or for base 0, which goes by the prefix. */
  datatype Written =
    | InBase(base: nat, zeros: nat)
    | Hex(x: byte, guess: bool)
    | Binary(b: byte, guess: bool)
    | Octal
    | Decimal

  predicate Proper(w: Written, n: nat) {
    match w
    case InBase(base, _) => 2 <= base <= 36
    case Hex(x, _) => x == 120 || x == 88      // x or X
    case Binary(b, _) => b == 98 || b == 66    // b or B
    case Octal => true
    case Decimal => n > 0
  }

  /** The base in which the digits are. */
  function BaseOf(w: Written): nat {
    match w
    case InBase(base, _) => base
    case Hex(_, _) => 16
    case Binary(_, _) => 2
    case Octal => 8
    case Decimal => 10
  }

  /** The base that is asked for. */
  function Asked(w: Written): nat {
    match w
    case InBase(base, _) => base
    case Hex(_, guess) => if guess then 0 else 16
    case Binary(_, guess) => if guess then 0 else 2
    case _ => 0
  }

  function Prefix(w: Written): seq<byte> {
    match w
    case InBase(_, zeros) => seq(zeros, _ => 48)
    case Hex(x, _) => [48, x]
    case Binary(b, _) => [48, b]
    case Octal => [48]
    case Decimal => []
  }

  /** Neither a digit nor a letter. */
  predicate NoDigit(c: byte) { c < 48 || 57 < c < 65 || 90 < c < 97 || 122 < c }

  /** A prefix that is not part of the number. */
  predicate Marked(w: Written) { w.Hex? || w.Binary? }

  /** Where the digits proper are in the text, with no sign and nothing in front. */
  lemma WrittenStart(w: Written, n: nat, style: Style, rest: seq<byte>)
    requires Proper(w, n) && IsCString(rest, 0) && NoDigit(rest[0])
    ensures var body := Body(w, n, style, rest);
            && IsCString(body, 0) && StartOf(body, Asked(w)) == Start(if Marked(w) then 2 else 0, BaseOf(w), false)
            && !IsSpace(body[0]) && body[0] != 43 && body[0] != 45
  {
    NotSpecial(48, 36);
    hide Printed, StartOf, SpaceRun, IsSpace, DigitValue, AllDigits, NoDigit;
    var ds, body := Printed(n, BaseOf(w), style), Body(w, n, style, rest);
    PrintedValue(n, BaseOf(w), style);
    CStringBehind(Prefix(w) + ds, rest);
    FirstDigit(ds, BaseOf(w));
    SecondCharacter(w, n, ds, body, rest);
    hide Prefix;
    StartPlain(body, Asked(w));
  }

  lemma FirstDigit(ds: seq<byte>, base: nat)
    requires |ds| > 0 && AllDigits(ds, base) && base <= 36
    ensures !IsSpace(ds[0]) && ds[0] != 43 && ds[0] != 45
  {
    NotSpecial(ds[0], base);
  }

  /** The second character is `x` or `b` only in a prefix, as far as it is looked at. */
  lemma SecondCharacter(w: Written, n: nat, ds: seq<byte>, body: seq<byte>, rest: seq<byte>)
    requires Proper(w, n) && |ds| > 0 && AllDigits(ds, BaseOf(w)) && (n > 0 ==> ds[0] != 48)
    requires |rest| > 0 && NoDigit(rest[0]) && body == Prefix(w) + ds + rest
    ensures |body| > 1 && body[0] == if |Prefix(w)| == 0 then ds[0] else 48
    ensures Marked(w) ==> body[1] == Prefix(w)[1]
    ensures !Marked(w) ==> ((Asked(w) == 0 || Asked(w) == 16) && body[0] == 48 ==> body[1] !in {120, 88})
    ensures !Marked(w) ==> ((Asked(w) == 0 || Asked(w) == 2) && body[0] == 48 ==> body[1] !in {98, 66})
    ensures w.Octal? ==> body[0] == 48
  {
    assert |Prefix(w)| == 0 ==> body[0] == ds[0] && body[1] == if |ds| > 1 then ds[1] else rest[0];
    assert |Prefix(w)| == 1 ==> body[1] == ds[0];
    assert |Prefix(w)| > 1 && !Marked(w) ==> body[1] == 48;
  }

  lemma CStringBehind(front: seq<byte>, rest: seq<byte>)
    requires IsCString(rest, 0)
    ensures IsCString(front + rest, 0)
  {
    var z :| 0 <= z < |rest| && rest[z] == 0;
    assert (front + rest)[|front| + z] == 0;
  }

  lemma NotSpecial(c: byte, base: nat)
    requires DigitValue(c) < base <= 36
    ensures !IsSpace(c) && c != 43 && c != 45
  {
  }

  /** The start of a text without white space and sign. */
  lemma StartPlain(body: seq<byte>, base: nat)
    requires IsCString(body, 0) && |body| > 1 && !IsSpace(body[0]) && body[0] != 43 && body[0] != 45
    ensures var b := if body[0] == 48 then body[1] else 0;
            StartOf(body, base) ==
            if (base == 0 || base == 16) && (b == 120 || b == 88) then Start(2, 16, false)
            else if (base == 0 || base == 2) && (b == 98 || b == 66) then Start(2, 2, false)
            else Start(0, if base != 0 then base else if body[0] == 48 then 8 else 10, false)
  {
    assert SpaceRun(body) == 0;
  }

  /** White space and a sign move the start along. */
  lemma StartBehind(spaces: seq<byte>, sign: seq<byte>, body: seq<byte>, base: nat)
    requires forall c <- spaces :: c in {9, 10, 13, 32}
    requires sign == [] || sign == [43] || sign == [45]
    requires IsCString(body, 0) && !IsSpace(body[0]) && body[0] != 43 && body[0] != 45
    ensures var st, str := StartOf(body, base), spaces + (sign + body);
            && IsCString(str, 0)
            && StartOf(str, base) == Start(|spaces| + |sign| + st.at, st.base, sign == [45])
  {
    var str := spaces + (sign + body);
    var k := |spaces| + |sign|;
    assert str == (spaces + sign) + body;
    CStringBehind(spaces + sign, body);
    SpacesInFront(spaces, sign + body);
    assert SpaceRun(body) == 0;
    hide SpaceRun, IsCString, IsSpace, StartOf;
    assert str[|spaces|] == if sign == [] then body[0] else sign[0];
    assert str[k] == body[0] && (k + 1 < |str| <==> 1 < |body|);
    assert 1 < |body| ==> str[k + 1] == body[1];
    StartFrom(str, base, |spaces|, k);
    StartFrom(body, base, 0, 0);
  }

  /** The start by the characters it depends on. */
  lemma StartFrom(s: seq<byte>, base: nat, i: nat, j: nat)
    requires IsCString(s, 0) && SpaceRun(s) == i < |s| && j < |s|
    requires j == if s[i] == 45 || s[i] == 43 then i + 1 else i
    ensures var b := if j + 1 < |s| && s[j] == 48 then s[j + 1] else 0;
            StartOf(s, base) ==
            if (base == 0 || base == 16) && (b == 120 || b == 88) then Start(j + 2, 16, s[i] == 45)
            else if (base == 0 || base == 2) && (b == 98 || b == 66) then Start(j + 2, 2, s[i] == 45)
            else Start(j, if base != 0 then base else if s[j] == 48 then 8 else 10, s[i] == 45)
  {
  }

  lemma {:induction false} SpacesInFront(spaces: seq<byte>, rest: seq<byte>)
    requires forall c <- spaces :: c in {9, 10, 13, 32}
    requires rest != [] && !IsSpace(rest[0])
    ensures SpaceRun(spaces + rest) == |spaces|
  {
    if spaces == [] {
      assert spaces + rest == rest;
    } else {
      assert spaces[0] in spaces;
      assert forall c <- spaces[1..] :: c in spaces;
      assert (spaces + rest)[1..] == spaces[1..] + rest;
      SpacesInFront(spaces[1..], rest);
    }
  }

  /** The number as it is written, without what stands in front of it. */
  function Body(w: Written, n: nat, style: Style, rest: seq<byte>): seq<byte>
    requires Proper(w, n)
  {
    Prefix(w) + Printed(n, BaseOf(w), style) + rest
  }

  function Text(spaces: seq<byte>, sign: seq<byte>, w: Written, n: nat, style: Style, rest: seq<byte>): seq<byte>
    requires Proper(w, n)
  {
    spaces + (sign + Body(w, n, style, rest))
  }

  predicate Front(spaces: seq<byte>, sign: seq<byte>) {
    (forall c <- spaces :: c in {9, 10, 13, 32}) && (sign == [] || sign == [43] || sign == [45])
  }

  /** What `esp_strtol` makes of any number in any of these forms, with small or capital letters: the number,
      clamped to 32 bits, and the position behind it. */
  lemma PrintedRead(spaces: seq<byte>, sign: seq<byte>, w: Written, n: nat, style: Style, rest: seq<byte>)
    requires Front(spaces, sign) && Proper(w, n) && IsCString(rest, 0) && NoDigit(rest[0])
    ensures var str := Text(spaces, sign, w, n, style, rest);
            && IsCString(str, 0)
            && StrtolValue(str, Asked(w)) == Clamped(if sign == [45] then -(n as int) else n)
            && StrtolEnd(str, Asked(w)) == |str| - |rest|
  {
    assert |rest| > 0;
    hide Text, FrontOf, StartOf, IsCString, Value, StrtolValue, StrtolEnd, Proper, BaseOf, Asked, AllDigits, Front;
    var ds := DigitsOf(w, n, style);
    TextStart(spaces, sign, w, n, style, rest);
    TextParts(spaces, sign, w, n, style, ds, rest);
    var str := Text(spaces, sign, w, n, style, rest);
    ReadThere(str, FrontOf(spaces, sign, w), ds, rest, Asked(w), BaseOf(w), sign == [45]);
  }

  /** Everything in front of the digits that count. */
  function FrontOf(spaces: seq<byte>, sign: seq<byte>, w: Written): seq<byte> {
    spaces + sign + (if Marked(w) then Prefix(w) else [])
  }

  lemma TextStart(spaces: seq<byte>, sign: seq<byte>, w: Written, n: nat, style: Style, rest: seq<byte>)
    requires Front(spaces, sign) && Proper(w, n) && IsCString(rest, 0) && NoDigit(rest[0])
    ensures var str := Text(spaces, sign, w, n, style, rest);
            && IsCString(str, 0)
            && StartOf(str, Asked(w)) == Start(|FrontOf(spaces, sign, w)|, BaseOf(w), sign == [45])
  {
    hide Body, IsCString, StartOf, BaseOf, Asked, Prefix, IsSpace;
    WrittenStart(w, n, style, rest);
    StartBehind(spaces, sign, Body(w, n, style, rest), Asked(w));
    if Marked(w) {
      PrefixLength(w);
    }
  }

  lemma TextParts(spaces: seq<byte>, sign: seq<byte>, w: Written, n: nat, style: Style, ds: seq<byte>, rest: seq<byte>)
    requires Proper(w, n) && ds == (if Marked(w) then [] else Prefix(w)) + Printed(n, BaseOf(w), style)
    ensures Text(spaces, sign, w, n, style, rest) == FrontOf(spaces, sign, w) + (ds + rest)
  {
    assert 2 <= BaseOf(w) <= 36;
    hide Prefix, Printed, BaseOf;
    InParts(spaces, sign, Prefix(w), Printed(n, BaseOf(w), style), rest, Marked(w));
  }

  lemma PrefixLength(w: Written)
    requires Marked(w)
    ensures |Prefix(w)| == 2
  {
  }

  lemma ReadThere(str: seq<byte>, front: seq<byte>, ds: seq<byte>, rest: seq<byte>, base0: nat, base: nat, neg: bool)
    requires str == front + (ds + rest) && IsCString(str, 0) && StartOf(str, base0) == Start(|front|, base, neg)
    requires base <= 36 && AllDigits(ds, base) && |ds| > 0 && |rest| > 0 && NoDigit(rest[0])
    ensures StrtolValue(str, base0) == Clamped(if neg then -(Value(ds, base) as int) else Value(ds, base))
    ensures StrtolEnd(str, base0) == |str| - |rest|
  {
    NoMoreDigits(rest[0]);
    RunOf(ds, rest, base);
    hide StartOf, IsCString, Value, DigitRun, DigitValue, StrtolValue, StrtolEnd;
    Concluded(front, ds, rest, base0, base, neg);
  }

  function Clamped(v: int): int {
    if v < -0x8000_0000 then -0x8000_0000 else if v > 0x7FFF_FFFF then 0x7FFF_FFFF else v
  }

  lemma NoMoreDigits(c: byte)
    requires NoDigit(c)
    ensures DigitValue(c) == 36
  {
  }

  /** The digits that count. */
  lemma DigitsOf(w: Written, n: nat, style: Style) returns (ds: seq<byte>)
    requires Proper(w, n)
    ensures ds == (if Marked(w) then [] else Prefix(w)) + Printed(n, BaseOf(w), style)
    ensures 2 <= BaseOf(w) <= 36 && AllDigits(ds, BaseOf(w)) && Value(ds, BaseOf(w)) == n && |ds| > 0
  {
    var printed := Printed(n, BaseOf(w), style);
    PrintedValue(n, BaseOf(w), style);
    hide Printed, Value;
    ds := (if Marked(w) then [] else Prefix(w)) + printed;
    if Marked(w) {
      assert ds == printed;
    } else {
      assert Prefix(w) == seq(|Prefix(w)|, _ => 48);
      ZerosInFront(|Prefix(w)|, printed, BaseOf(w));
    }
  }

  lemma InParts(spaces: seq<byte>, sign: seq<byte>, prefix: seq<byte>, ds: seq<byte>, rest: seq<byte>, marked: bool)
    ensures spaces + (sign + (prefix + ds + rest))
         == spaces + sign + (if marked then prefix else []) + ((if marked then [] else prefix) + ds + rest)
  {
  }

  /** The prefix alone of a number in a base. */
  predicate Opened(prefix: seq<byte>, base: nat) {
    || prefix == []
    || ((base == 0 || base == 16) && (prefix == [48, 120] || prefix == [48, 88]))
    || ((base == 0 || base == 2) && (prefix == [48, 98] || prefix == [48, 66]))
  }

  /** Without digits there is no number, whatever stands in front of where they would be. */
  lemma NothingRead(spaces: seq<byte>, sign: seq<byte>, prefix: seq<byte>, rest: seq<byte>, base: nat)
    requires Front(spaces, sign) && Opened(prefix, base) && (base == 0 || 2 <= base <= 36)
    requires IsCString(rest, 0) && NoDigit(rest[0]) && (prefix == [] ==> rest[0] !in {9, 10, 13, 32, 43, 45})
    ensures var str := spaces + (sign + (prefix + rest));
            IsCString(str, 0) && StrtolValue(str, base) == 0 && StrtolEnd(str, base) == 0
  {
    OpenedStart(prefix, rest, base);
    NoMoreDigits(rest[0]);
    hide StartOf, IsCString, NoDigit, SpaceRun, Opened, IsSpace, DigitValue, StrtolValue, StrtolEnd;
    var body := prefix + rest;
    StartBehind(spaces, sign, body, base);
    hide Front;
    InFourParts(spaces, sign, prefix, rest);
    NoneThere(spaces + (sign + body), |spaces| + |sign| + |prefix|, rest, base);
  }

  lemma InFourParts(a: seq<byte>, b: seq<byte>, c: seq<byte>, d: seq<byte>)
    ensures var s := a + (b + (c + d)); |s| == |a| + |b| + |c| + |d| && s[|a| + |b| + |c|..] == d
  {
  }

  lemma OpenedStart(prefix: seq<byte>, rest: seq<byte>, base: nat)
    requires Opened(prefix, base) && (base == 0 || 2 <= base <= 36)
    requires IsCString(rest, 0) && NoDigit(rest[0]) && (prefix == [] ==> rest[0] !in {9, 10, 13, 32, 43, 45})
    ensures var body := prefix + rest;
            && IsCString(body, 0) && !IsSpace(body[0]) && body[0] != 43 && body[0] != 45
            && StartOf(body, base).at == |prefix| && StartOf(body, base).base <= 36
  {
    var body := prefix + rest;
    CStringBehind(prefix, rest);
    assert prefix == [] ==> body == rest;
    assert SpaceRun(body) == 0;
    hide IsCString, StartOf;
    StartFrom(body, base, 0, 0);
  }

  lemma NoneThere(str: seq<byte>, at: nat, rest: seq<byte>, base: nat)
    requires IsCString(str, 0) && StartOf(str, base).at == at <= |str| && str[at..] == rest
    requires |rest| > 0 && DigitValue(rest[0]) >= 36 && StartOf(str, base).base <= 36
    ensures StrtolValue(str, base) == 0 && StrtolEnd(str, base) == 0
  {
    hide StartOf, IsCString;
    assert rest[..0] == [];
  }
}
