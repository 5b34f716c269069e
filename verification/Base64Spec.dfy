/** Base 64 (section 4 of RFC 4648): groups of three octets against groups of four digits. */
module Base64Spec {
  import opened Bytes

  type digit = x: int | 0 <= x < 64

  const PADDING: byte := 61   // '='

  /** The alphabet: A-Z, a-z, 0-9, + and /. */
  function Letter(d: digit): (c: byte)
    ensures Value(c) == d && !IsSpace(c) && c != PADDING
  {
    if d < 26 then 65 + d
    else if d < 52 then 97 + (d - 26)
    else if d < 62 then 48 + (d - 52)
    else if d == 62 then 43
    else 47
  }

  /** "ABCDEFGHIJKLMNOPQRSTUVWXYZ", "abcdefghijklmnopqrstuvwxyz" and "0123456789+/" */
  const CAPITALS: seq<byte> :=
    [65, 66, 67, 68, 69, 70, 71, 72, 73, 74, 75, 76, 77, 78, 79, 80, 81, 82, 83, 84, 85, 86, 87, 88, 89, 90]
  const SMALL: seq<byte> :=
    [97, 98, 99, 100, 101, 102, 103, 104, 105, 106, 107, 108, 109, 110, 111, 112, 113, 114, 115, 116, 117, 118, 119,
     120, 121, 122]
  const REST: seq<byte> := [48, 49, 50, 51, 52, 53, 54, 55, 56, 57, 43, 47]

  /** The alphabet in its order (table 1 of RFC 4648). */
  lemma Alphabet(d: digit)
    ensures Letter(d) == if d < 26 then CAPITALS[d] else if d < 52 then SMALL[d - 26] else REST[d - 52]
  {
  }

  /** The first `=`, or any other character outside the alphabet that is not white space, ends a text. */
  lemma {:induction false} ForeignEnds(ds: seq<digit>, c: byte, rest: seq<byte>)
    requires c !in CAPITALS && c !in SMALL && c !in REST && c !in {9, 10, 11, 12, 13, 32}
    ensures Digits(Letters(ds) + [c] + rest) == ds
  {
    var text := Letters(ds) + [c] + rest;
    if ds == [] {
      Outside(c);
      assert text[0] == c;
    } else {
      ForeignEnds(ds[1..], c, rest);
      hide Letter, Value, IsSpace;
      assert text[0] == Letter(ds[0]);
      assert text[1..] == Letters(ds[1..]) + [c] + rest;
    }
  }

  function Letters(ds: seq<digit>): seq<byte> { if ds == [] then [] else [Letter(ds[0])] + Letters(ds[1..]) }

  lemma Outside(c: byte)
    requires c !in CAPITALS && c !in SMALL && c !in REST && c !in {9, 10, 11, 12, 13, 32}
    ensures !IsSpace(c) && (c == 61 || Value(c) == 255)
  {
    Inside(c);
    hide CAPITALS, SMALL, REST;
  }

  lemma Inside(c: byte)
    ensures 65 <= c <= 90 ==> c in CAPITALS
    ensures 97 <= c <= 122 ==> c in SMALL
    ensures 48 <= c <= 57 || c == 43 || c == 47 ==> c in REST
  {
    if 65 <= c <= 90 {
      assert CAPITALS[c - 65] == c;
    } else if 97 <= c <= 122 {
      assert SMALL[c - 97] == c;
    }
  }

  /** A row of the decoding table: 255 outside the alphabet, and 0 for the padding character. */
  function Value(c: byte): (v: byte)
    ensures v < 64 || v == 255
  {
    if 65 <= c <= 90 then c - 65
    else if 97 <= c <= 122 then c - 97 + 26
    else if 48 <= c <= 57 then c - 48 + 52
    else if c == 43 then 62
    else if c == 47 then 63
    else if c == PADDING then 0
    else 255
  }

  /** `isspace`. */
  predicate IsSpace(c: byte) { 9 <= c <= 13 || c == 32 }

  // ---------------------------------------------------------------- encoding

  function First(a: byte): digit { a / 4 }

  function Second(a: byte, b: byte): digit { a % 4 * 16 + b / 16 }

  function Third(b: byte, c: byte): digit { b % 16 * 4 + c / 64 }

  function Fourth(c: byte): digit { c % 64 }

  function Encoding(data: seq<byte>): (r: seq<byte>)
    ensures |r| == (|data| + 2) / 3 * 4
  {
    hide Letter, First, Second, Third, Fourth;
    if |data| == 0 then []
    else if |data| == 1 then [Letter(First(data[0])), Letter(Second(data[0], 0)), PADDING, PADDING]
    else if |data| == 2 then
      [Letter(First(data[0])), Letter(Second(data[0], data[1])), Letter(Third(data[1], 0)), PADDING]
    else
      Thirds(|data|);
      [Letter(First(data[0])), Letter(Second(data[0], data[1])), Letter(Third(data[1], data[2])),
       Letter(Fourth(data[2]))]
      + Encoding(data[3..])
  }

  lemma Thirds(n: nat)
    requires n >= 3
    ensures (n + 2) / 3 * 4 == 4 + (n - 3 + 2) / 3 * 4
  {
  }

  /** Octet i, or 0 past the end. */
  function OrZero(data: seq<byte>, i: nat): byte { if i < |data| then data[i] else 0 }

  /** Digit k of the bits of the data, six at a time. */
  function Sextet(data: seq<byte>, k: nat): digit {
    var q := k / 4 * 3;
    if k % 4 == 0 then First(OrZero(data, q))
    else if k % 4 == 1 then Second(OrZero(data, q), OrZero(data, q + 1))
    else if k % 4 == 2 then Third(OrZero(data, q + 1), OrZero(data, q + 2))
    else Fourth(OrZero(data, q + 2))
  }

  /** The encoding, character by character. */
  lemma {:induction false} EncodingAt(data: seq<byte>, k: nat)
    requires k < |Encoding(data)|
    ensures Encoding(data)[k] == if 6 * k < 8 * |data| then Letter(Sextet(data, k)) else 61
  {
    hide First, Second, Third, Fourth, Letter;
    if |data| >= 3 && k >= 4 {
      EncodingAt(data[3..], k - 4);
      SextetLater(data, k);
    } else {
      assert k / 4 == 0 && k % 4 == k;
    }
  }

  lemma SextetLater(data: seq<byte>, k: nat)
    requires |data| >= 3 && k >= 4
    ensures Sextet(data, k) == Sextet(data[3..], k - 4)
  {
    hide First, Second, Third, Fourth;
    assert k / 4 == (k - 4) / 4 + 1 && k % 4 == (k - 4) % 4;
    var q := (k - 4) / 4 * 3;
    assert OrZero(data, q + 3) == OrZero(data[3..], q) && OrZero(data, q + 4) == OrZero(data[3..], q + 1)
        && OrZero(data, q + 5) == OrZero(data[3..], q + 2);
  }

  // ---------------------------------------------------------------- decoding

  /** The digits of a text: white space is skipped, and the first `=` or foreign character ends it. */
  function Digits(text: seq<byte>): seq<digit> {
    if text == [] then []
    else if IsSpace(text[0]) then Digits(text[1..])
    else if text[0] == PADDING || Value(text[0]) == 255 then []
    else [Value(text[0])] + Digits(text[1..])
  }

  function HighOctet(a: int, b: int): byte
    requires 0 <= a < 64 && 0 <= b < 64
  {
    a * 4 + b / 16
  }

  function MiddleOctet(b: int, c: int): byte
    requires 0 <= b < 64 && 0 <= c < 64
  {
    b % 16 * 16 + c / 4
  }

  function LowOctet(c: int, d: int): byte
    requires 0 <= c < 64 && 0 <= d < 64
  {
    c % 4 * 64 + d
  }

  /** Whole octets of the digits' bits; fewer than eight bits left over are dropped. */
  function Octets(ds: seq<digit>): (r: seq<byte>)
    ensures |r| == |ds| * 6 / 8
  {
    if |ds| <= 1 then []
    else if |ds| == 2 then [HighOctet(ds[0], ds[1])]
    else if |ds| == 3 then [HighOctet(ds[0], ds[1]), MiddleOctet(ds[1], ds[2])]
    else [HighOctet(ds[0], ds[1]), MiddleOctet(ds[1], ds[2]), LowOctet(ds[2], ds[3])] + Octets(ds[4..])
  }

  function Decoding(text: seq<byte>): seq<byte> { Octets(Digits(text)) }

  /** Octet m of the digits' bits. */
  function OctetOf(ds: seq<digit>, m: nat): byte
    requires 8 * (m + 1) <= 6 * |ds|
  {
    var q := m / 3 * 4;
    if m % 3 == 0 then HighOctet(ds[q], ds[q + 1])
    else if m % 3 == 1 then MiddleOctet(ds[q + 1], ds[q + 2])
    else LowOctet(ds[q + 2], ds[q + 3])
  }

  lemma {:induction false} OctetsAt(ds: seq<digit>, m: nat)
    requires m < |Octets(ds)|
    ensures 8 * (m + 1) <= 6 * |ds| && Octets(ds)[m] == OctetOf(ds, m)
  {
    if |ds| > 3 && m >= 3 {
      OctetsAt(ds[4..], m - 3);
      assert m / 3 == (m - 3) / 3 + 1 && m % 3 == (m - 3) % 3;
    } else {
      assert m / 3 == 0 && m % 3 == m;
    }
  }

  lemma {:induction false} DigitsSplit(a: seq<byte>, b: seq<byte>)
    requires forall i :: 0 <= i < |a| ==> IsSpace(a[i]) || (a[i] != PADDING && Value(a[i]) != 255)
    ensures Digits(a + b) == Digits(a) + Digits(b)
  {
    if a == [] {
      assert a + b == b;
    } else {
      assert (a + b)[1..] == a[1..] + b;
      DigitsSplit(a[1..], b);
    }
  }

  lemma DigitsLetters(a: digit, b: digit, rest: seq<byte>)
    ensures Digits([Letter(a), Letter(b)] + rest) == [a, b] + Digits(rest)
  {
    var text := [Letter(a), Letter(b)] + rest;
    assert text[1..] == [Letter(b)] + rest;
    assert text[1..][1..] == rest;
  }

  lemma PaddingEnds(rest: seq<byte>)
    ensures Digits([PADDING] + rest) == []
  {
  }

  /** Decoding an encoding gives the data back. */
  lemma {:induction false} RoundTrip(data: seq<byte>)
    ensures Decoding(Encoding(data)) == data
    decreases |data|, 1
  {
    hide Letter, Value, IsSpace;
    if |data| == 1 {
      OneRoundTrip(data);
    } else if |data| == 2 {
      TwoRoundTrip(data);
    } else if |data| >= 3 {
      GroupRoundTrip(data);
    }
  }

  lemma GroupOctets(a: byte, b: byte, c: byte)
    ensures HighOctet(First(a), Second(a, b)) == a
    ensures MiddleOctet(Second(a, b), Third(b, c)) == b
    ensures LowOctet(Third(b, c), Fourth(c)) == c
  {
  }

  lemma OneRoundTrip(data: seq<byte>)
    requires |data| == 1
    ensures Decoding(Encoding(data)) == data
  {
    hide Letter, Value, IsSpace, First, Second, Third, Fourth, Digits, HighOctet;
    var a, b := First(data[0]), Second(data[0], 0);
    assert Encoding(data) == [Letter(a), Letter(b)] + [PADDING, PADDING];
    DigitsLetters(a, b, [PADDING, PADDING]);
    assert [PADDING, PADDING] == [PADDING] + [PADDING];
    PaddingEnds([PADDING]);
    hide Encoding;
    assert Digits(Encoding(data)) == [a, b];
    GroupOctets(data[0], 0, 0);
  }

  lemma TwoRoundTrip(data: seq<byte>)
    requires |data| == 2
    ensures Decoding(Encoding(data)) == data
  {
    hide Letter, Value, IsSpace, First, Second, Third, Fourth, Digits, HighOctet, MiddleOctet;
    var a, b, c := First(data[0]), Second(data[0], data[1]), Third(data[1], 0);
    assert Encoding(data) == [Letter(a), Letter(b)] + [Letter(c), PADDING];
    DigitsLetters(a, b, [Letter(c), PADDING]);
    LetterPadded(c);
    hide Encoding;
    assert Digits(Encoding(data)) == [a, b, c];
    GroupOctets(data[0], data[1], 0);
  }

  lemma LetterPadded(c: digit)
    ensures Digits([Letter(c), PADDING]) == [c]
  {
    assert [Letter(c), PADDING][1..] == [PADDING] + [];
  }

  lemma {:induction false} GroupRoundTrip(data: seq<byte>)
    requires |data| >= 3
    ensures Decoding(Encoding(data)) == data
    decreases |data|, 0
  {
    hide Letter, Value, IsSpace, First, Second, Third, Fourth;
    var a, b, c, d := First(data[0]), Second(data[0], data[1]), Third(data[1], data[2]), Fourth(data[2]);
    var rest := Encoding(data[3..]);
    assert Encoding(data) == [Letter(a), Letter(b)] + ([Letter(c), Letter(d)] + rest);
    DigitsLetters(a, b, [Letter(c), Letter(d)] + rest);
    DigitsLetters(c, d, rest);
    var ds := Digits(Encoding(data));
    assert ds == [a, b, c, d] + Digits(rest);
    assert ds[4..] == Digits(rest);
    RoundTrip(data[3..]);
    GroupOctets(data[0], data[1], data[2]);
    hide Digits, HighOctet, MiddleOctet, LowOctet, Encoding;
    assert Octets(ds) == [HighOctet(a, b), MiddleOctet(b, c), LowOctet(c, d)] + data[3..];
    assert data == data[..3] + data[3..];
  }

  function NoSpaces(text: seq<byte>): seq<byte> {
    if text == [] then [] else (if text[0] in {9, 10, 11, 12, 13, 32} then [] else [text[0]]) + NoSpaces(text[1..])
  }

  /** White space put anywhere into a text does not change what it decodes to. */
  lemma {:induction false} SpacesSkipped(text: seq<byte>)
    ensures Digits(NoSpaces(text)) == Digits(text)
  {
    if text != [] {
      SpacesSkipped(text[1..]);
      if IsSpace(text[0]) {
        assert NoSpaces(text) == NoSpaces(text[1..]);
      } else {
        assert NoSpaces(text)[0] == text[0] && NoSpaces(text)[1..] == NoSpaces(text[1..]);
      }
    }
  }
}
