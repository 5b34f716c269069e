/**
 Arguments in `httpd.c`: percent decoding and the search for a value in a query or a form body.
 */
module HttpdArgs {
  import opened Bytes
  import opened Wrappers
  import Digits

  const PERCENT: byte := 37
  const PLUS: byte := 43
  const SPACE: byte := 32
  const AMP: byte := 38
  const EQUALS: byte := 61
  const CR: byte := 13
  const LF: byte := 10

  // ---------------------------------------------------------------- percent decoding

  /** `httpdHexVal`. */
  function HexVal(c: byte): (v: nat)
    ensures v < 16
  {
    if 48 <= c <= 57 then c - 48 else if 65 <= c <= 70 then c - 55 else if 97 <= c <= 102 then c - 87 else 0
  }

  /** An escape is one byte, a plus sign is a blank, and an escape cut short is nothing. */
  function Decoded(text: seq<byte>): seq<byte> {
    if text == [] then []
    else if text[0] == PERCENT then
      if |text| < 3 then [] else [Escape(text[1], text[2])] + Decoded(text[3..])
    else [if text[0] == PLUS then SPACE else text[0]] + Decoded(text[1..])
  }

  function Escape(high: byte, low: byte): byte { HexVal(high) * 16 + HexVal(low) }

  /** What is still to come, in each state of the decoding loop. */
  ghost function Pending(esced: nat, escVal: nat, rest: seq<byte>): seq<byte>
    requires escVal <= 240
  {
    if esced == 0 then Decoded(rest)
    else if esced == 1 then if |rest| < 2 then [] else [Escape(rest[0], rest[1])] + Decoded(rest[2..])
    else if rest == [] then [] else [Ended(escVal, rest[0])] + Decoded(rest[1..])
  }

  function Ended(escVal: nat, c: byte): byte
    requires escVal <= 240
  {
    escVal + HexVal(c)
  }

  /** The value is decoded to what is out and what is to come. */
  ghost predicate Progress(out: seq<byte>, esced: nat, escVal: nat, rest: seq<byte>, text: seq<byte>) {
    escVal <= 240 && out + Pending(esced, escVal, rest) == text
  }

  /** The start of a text that fits the buffer, a NUL if there is room for it, and the old contents. */
  ghost predicate Filled(d: nat, text: seq<byte>, before: seq<byte>, after: seq<byte>) {
    && d == (if |text| <= |before| then |text| else |before|) && |after| == |before|
    && after[..d] == text[..d]
    && (d < |before| ==> after[d] == 0 && after[d + 1..] == before[d + 1..])
  }

  /** `httpdUrlDecode`. */
  method UrlDecode(val: seq<byte>, ret: array<byte>) returns (d: nat)
    modifies ret
    ensures Filled(d, Decoded(val), old(ret[..]), ret[..])
  {
    hide Decoded, HexVal, Progress, Ended;
    var s, esced, escVal: nat := 0, 0, 0;
    d := 0;
    ghost var text := Decoded(val);
    assert val[0..] == val;
    ProgressStart(val);
    while s < |val| && d < ret.Length
      invariant s <= |val| && d <= ret.Length && esced <= 2 && escVal <= 240
      invariant Progress(ret[..d], esced, escVal, val[s..], text)
      invariant forall j :: d <= j < ret.Length ==> ret[j] == old(ret[j])
    {
      ghost var out := ret[..d];
      ProgressStep(out, esced, escVal, val[s..], text);
      assert val[s..][1..] == val[s + 1..];
      if esced == 1 {
        escVal := HexVal(val[s]) * 16;
        esced := 2;
      } else if esced == 2 {
        ret[d] := Ended(escVal, val[s]);
        d := d + 1;
        esced := 0;
      } else if val[s] == PERCENT {
        esced := 1;
      } else if val[s] == PLUS {
        ret[d] := SPACE;
        d := d + 1;
      } else {
        ret[d] := val[s];
        d := d + 1;
      }
      assert ret[..d] == out || ret[..d] == out + [ret[d - 1]];
      s := s + 1;
    }
    ProgressEnd(ret[..d], esced, escVal, val[s..], text);
    ghost var out := ret[..d];
    if d < ret.Length {
      ret[d] := 0;
    }
    assert ret[..d] == out;
  }

  lemma ProgressStart(val: seq<byte>)
    ensures Progress([], 0, 0, val, Decoded(val))
  {
  }

  lemma ProgressStep(out: seq<byte>, esced: nat, escVal: nat, rest: seq<byte>, text: seq<byte>)
    requires Progress(out, esced, escVal, rest, text) && esced <= 2 && rest != []
    ensures escVal <= 240
    ensures esced == 0 && rest[0] == PERCENT ==> Progress(out, 1, escVal, rest[1..], text)
    ensures esced == 0 && rest[0] != PERCENT ==> Progress(out + [if rest[0] == PLUS then SPACE else rest[0]], 0,
        escVal, rest[1..], text)
    ensures esced == 1 ==> Progress(out, 2, HexVal(rest[0]) * 16, rest[1..], text)
    ensures esced == 2 ==> Progress(out + [Ended(escVal, rest[0])], 0, escVal, rest[1..], text)
  {
    if esced == 1 && |rest| >= 2 {
      assert Ended(HexVal(rest[0]) * 16, rest[1]) == Escape(rest[0], rest[1]);
      assert rest[1..][1..] == rest[2..];
    }
    if esced == 0 && rest[0] == PERCENT && |rest| >= 3 {
      assert rest[1..][2..] == rest[3..];
    }
  }

  lemma ProgressEnd(out: seq<byte>, esced: nat, escVal: nat, rest: seq<byte>, text: seq<byte>)
    requires Progress(out, esced, escVal, rest, text) && esced <= 2
    ensures |out| <= |text| && out == text[..|out|]
    ensures rest == [] ==> out == text
  {
  }

  // ---------------------------------------------------------------- encoding

  /** How a byte is written: as it is, as a plus sign, or escaped with capital or small digits. */
  datatype Style = Literal | Plus | Upper | Lower

  datatype Char = Char(value: byte, style: Style)

  predicate Allowed(c: Char) {
    match c.style
    case Literal => c.value !in {37, 43, 38, 61, 13, 10, 0}   // % + & = CR LF NUL
    case Plus => c.value == 32
    case _ => true
  }

  function Digit(v: nat, style: Style): byte
    requires v < 16
  {
    Digits.Character(v, if style == Upper then Digits.Capitals else Digits.Small)
  }

  function EncodedChar(c: Char): seq<byte> {
    match c.style
    case Literal => [c.value]
    case Plus => [43]
    case _ => [37, Digit(c.value / 16, c.style), Digit(c.value % 16, c.style)]
  }

  function Encoded(chars: seq<Char>): seq<byte> {
    if chars == [] then [] else EncodedChar(chars[0]) + Encoded(chars[1..])
  }

  function Values(chars: seq<Char>): seq<byte> {
    if chars == [] then [] else [chars[0].value] + Values(chars[1..])
  }

  lemma HexDigit(v: nat, style: Style)
    requires v < 16
    ensures HexVal(Digit(v, style)) == v
  {
    Digits.CharacterIs(v, if style == Upper then Digits.Capitals else Digits.Small);
    hide Digits.Character;
  }

  lemma DecodedChar(c: Char, rest: seq<byte>)
    requires Allowed(c)
    ensures Decoded(EncodedChar(c) + rest) == [c.value] + Decoded(rest)
  {
    var text := EncodedChar(c) + rest;
    if c.style == Upper || c.style == Lower {
      assert text[3..] == rest;
      HexDigit(c.value / 16, c.style);
      HexDigit(c.value % 16, c.style);
      hide HexVal, Digit;
    } else {
      assert text[1..] == rest;
    }
  }

  /** What is not a digit of base sixteen, in either case, counts as zero. */
  lemma HexValOfDigit(c: byte) returns (style: Digits.Style)
    requires HexVal(c) != 0
    ensures Digits.Character(HexVal(c), style) == c
  {
    style := if c <= 90 then Digits.Capitals else Digits.Small;
    Digits.CharacterIs(HexVal(c), style);
    hide Digits.Character;
  }

  /** An escape that is cut short ends the value and adds nothing. */
  lemma {:induction false} CutShort(chars: seq<Char>, rest: seq<byte>)
    requires (forall c <- chars :: Allowed(c)) && |rest| < 2
    ensures Decoded(Encoded(chars) + ([37] + rest)) == Values(chars)
  {
    hide EncodedChar, Allowed;
    if chars == [] {
      assert [] + ([37] + rest) == [37] + rest;
    } else {
      hide Decoded;
      CutShort(chars[1..], rest);
      DecodedChar(chars[0], Encoded(chars[1..]) + ([37] + rest));
      assert Encoded(chars) + ([37] + rest) == EncodedChar(chars[0]) + (Encoded(chars[1..]) + ([37] + rest));
    }
  }

  /** Decoding inverts every form encoding of every byte string. */
  lemma {:induction false} DecodedEncoded(chars: seq<Char>)
    requires forall c <- chars :: Allowed(c)
    ensures Decoded(Encoded(chars)) == Values(chars)
  {
    if chars != [] {
      DecodedChar(chars[0], Encoded(chars[1..]));
      hide Decoded, EncodedChar;
      DecodedEncoded(chars[1..]);
    }
  }

  // ---------------------------------------------------------------- finding an argument

  /** The parts of a line between ampersands. */
  function Split(line: seq<byte>): (r: seq<seq<byte>>)
    ensures |r| > 0
  {
    if line == [] then [[]]
    else if line[0] == 38 then [[]] + Split(line[1..])
    else
      var rest := Split(line[1..]);
      [[line[0]] + rest[0]] + rest[1..]
  }

  predicate StartsWith(s: seq<byte>, prefix: seq<byte>) { |prefix| <= |s| && s[..|prefix|] == prefix }

  /** The undecoded value of the first `key=value` part; a part that starts with a line end ends the search. */
  function Lookup(parts: seq<seq<byte>>, key: seq<byte>): Option<seq<byte>> {
    if parts == [] || (parts[0] != [] && (parts[0][0] == 13 || parts[0][0] == 10)) then None
    else if StartsWith(parts[0], key + [61]) then Some(parts[0][|key| + 1..])
    else Lookup(parts[1..], key)
  }

  /** `strstr(p, "&")`, or the end. */
  function NextAmp(s: seq<byte>): (n: nat)
    ensures n <= |s|
    ensures AMP !in s[..n] && (n < |s| ==> s[n] == AMP)
    ensures AMP !in s ==> n == |s|
  {
    if s == [] || s[0] == AMP then 0
    else
      var n := NextAmp(s[1..]) + 1;
      assert s[..n] == [s[0]] + s[1..][..n - 1];
      n
  }

  /** Splitting goes by the ampersands. */
  lemma {:induction false} SplitAt(line: seq<byte>)
    ensures NextAmp(line) == |line| ==> Split(line) == [line]
    ensures NextAmp(line) < |line| ==> Split(line) == [line[..NextAmp(line)]] + Split(line[NextAmp(line) + 1..])
  {
    if line != [] && line[0] != AMP {
      var rest := line[1..];
      var n := NextAmp(rest);
      assert NextAmp(line) == n + 1;
      SplitAt(rest);
      hide NextAmp, Split;
      if n == |rest| {
        SplitFirst(line, rest, []);
        assert [line[0]] + rest == line;
      } else {
        assert rest[n + 1..] == line[n + 2..];
        SplitFirst(line, rest[..n], Split(line[n + 2..]));
        assert [line[0]] + rest[..n] == line[..n + 1];
      }
    }
  }

  /** A character in front belongs to the first part. */
  lemma SplitFirst(line: seq<byte>, part: seq<byte>, more: seq<seq<byte>>)
    requires line != [] && line[0] != AMP && Split(line[1..]) == [part] + more
    ensures Split(line) == [[line[0]] + part] + more
  {
    assert ([part] + more)[1..] == more;
  }

  lemma SplitOne(line: seq<byte>)
    requires AMP !in line
    ensures NextAmp(line) == |line| && Split(line) == [line]
  {
    SplitAt(line);
    assert line[..|line|] == line;
  }

  /** A key cannot match across an ampersand. */
  lemma PrefixWithin(s: seq<byte>, key: seq<byte>)
    requires AMP !in key
    ensures StartsWith(s, key + [EQUALS]) <==> StartsWith(s[..NextAmp(s)], key + [EQUALS])
    ensures StartsWith(s, key + [EQUALS]) ==>
      s[..NextAmp(s)][|key| + 1..] == s[|key| + 1..][..NextAmp(s[|key| + 1..])]
  {
    var k, n := key + [EQUALS], NextAmp(s);
    if StartsWith(s[..n], k) {
      assert s[..n][..|k|] == s[..|k|];
    }
    if StartsWith(s, k) {
      AmpBeyond(s, |k|);
      AmpAfter(s, |k|);
      assert s[..n][..|k|] == s[..|k|];
    }
  }

  lemma {:induction false} AmpBeyond(s: seq<byte>, k: nat)
    requires k <= |s| && AMP !in s[..k]
    ensures NextAmp(s) >= k
  {
    if k > 0 {
      assert s[..k][0] == s[0];
      assert forall c :: c in s[1..][..k - 1] ==> c in s[..k];
      AmpBeyond(s[1..], k - 1);
    }
  }

  lemma {:induction false} AmpAfter(s: seq<byte>, k: nat)
    requires k <= NextAmp(s)
    ensures NextAmp(s[k..]) == NextAmp(s) - k
  {
    if k > 0 {
      assert s[1..][k - 1..] == s[k..];
      AmpAfter(s[1..], k - 1);
    } else {
      assert s[0..] == s;
    }
  }

  /** The search of `httpdFindArg` from a position in the line. */
  function Search(s: seq<byte>, key: seq<byte>): Option<seq<byte>> {
    if s == [] || s[0] == LF || s[0] == CR then None
    else if StartsWith(s, key + [EQUALS]) then Some(ValueOf(s, key))
    else if NextAmp(s) == |s| then None
    else Search(s[NextAmp(s) + 1..], key)
  }

  /** For a key without an ampersand this is the first part of the line with that key. */
  lemma {:induction false} SearchIsLookup(s: seq<byte>, key: seq<byte>)
    requires AMP !in key
    ensures Search(s, key) == Lookup(Split(s), key)
    decreases |s|
  {
    hide Split, Lookup, NextAmp, StartsWith, ValueOf;
    if s == [] || s[0] == LF || s[0] == CR {
      LookupEnds(s, key);
    } else if StartsWith(s, key + [EQUALS]) {
      LookupHit(s, key);
    } else {
      LookupMiss(s, key);
      if NextAmp(s) < |s| {
        SearchIsLookup(s[NextAmp(s) + 1..], key);
      }
    }
  }

  /** `httpdFindArg`: the value found, percent-decoded into the buffer, or -1. */
  method FindArg(line: Option<seq<byte>>, key: seq<byte>, buff: array<byte>) returns (r: int)
    modifies buff
    ensures match (if line.None? then None else Search(line.value, key))
            case None => r == -1 && buff[..] == old(buff[..])
            case Some(value) => r >= 0 && Filled(r, Decoded(value), old(buff[..]), buff[..])
    ensures line.Some? && AMP !in key ==> Search(line.value, key) == Lookup(Split(line.value), key)
  {
    hide Lookup, Split, NextAmp, Filled, Decoded, StartsWith;
    if line.None? { return -1; }
    if AMP !in key {
      SearchIsLookup(line.value, key);
    }
    var p := Some(line.value);   // NULL is None
    ghost var found := Search(line.value, key);
    while p.Some? && p.value != [] && p.value[0] != LF && p.value[0] != CR
      invariant found == if p.None? then None else Search(p.value, key)
      invariant buff[..] == old(buff[..])
      decreases if p.None? then 0 else |p.value| + 1
    {
      var s := p.value;
      if StartsWith(s, key + [EQUALS]) {
        StartsLength(s, key);
        var v := s[|key| + 1..];
        var e := NextAmp(v);
        r := UrlDecode(v[..e], buff);
        return;
      }
      var e := NextAmp(s);
      p := if e == |s| then None else Some(s[e + 1..]);
    }
    return -1;
  }

  lemma StartsLength(s: seq<byte>, key: seq<byte>)
    requires StartsWith(s, key + [EQUALS])
    ensures |key| + 1 <= |s|
  {
  }

  /** From the start of the value to the next ampersand. */
  function ValueOf(s: seq<byte>, key: seq<byte>): seq<byte>
    requires StartsWith(s, key + [EQUALS])
  {
    var v := s[|key| + 1..];
    v[..NextAmp(v)]
  }

  lemma LookupHit(s: seq<byte>, key: seq<byte>)
    requires AMP !in key && s != [] && s[0] != LF && s[0] != CR && StartsWith(s, key + [EQUALS])
    ensures Lookup(Split(s), key) == Some(ValueOf(s, key))
  {
    PrefixWithin(s, key);
    PartFirst(s, key);
  }

  lemma LookupMiss(s: seq<byte>, key: seq<byte>)
    requires AMP !in key && s != [] && s[0] != LF && s[0] != CR && !StartsWith(s, key + [EQUALS])
    ensures NextAmp(s) == |s| ==> Lookup(Split(s), key).None?
    ensures NextAmp(s) < |s| ==> Lookup(Split(s), key) == Lookup(Split(s[NextAmp(s) + 1..]), key)
  {
    hide StartsWith, Lookup, Split;
    PrefixWithin(s, key);
    PartFirst(s, key);
    SplitAt(s);
    if NextAmp(s) == |s| {
      LookupFirst(s, [], key);
      assert [s] == [s] + [];
    } else {
      LookupFirst(s[..NextAmp(s)], Split(s[NextAmp(s) + 1..]), key);
    }
  }

  /** The first part decides if it has the key. */
  lemma PartFirst(s: seq<byte>, key: seq<byte>)
    requires s != [] && s[0] != LF && s[0] != CR
    ensures var part := s[..NextAmp(s)];
            && (part != [] ==> part[0] == s[0])
            && (StartsWith(part, key + [EQUALS]) ==> Lookup(Split(s), key) == Some(part[|key| + 1..]))
  {
    hide Split, StartsWith, NextAmp;
    SplitAt(s);
    FirstOf(s, NextAmp(s));
    var part := s[..NextAmp(s)];
    assert part == Split(s)[0] by {
      if NextAmp(s) == |s| {
        assert part == s;
      }
    }
  }

  lemma FirstOf(s: seq<byte>, n: nat)
    requires 0 <= n <= |s|
    ensures s[..n] != [] ==> s[..n][0] == s[0]
  {
  }

  lemma LookupFirst(part: seq<byte>, more: seq<seq<byte>>, key: seq<byte>)
    requires part != [] ==> part[0] != CR && part[0] != LF
    ensures Lookup([part] + more, key) ==
            if StartsWith(part, key + [EQUALS]) then Some(part[|key| + 1..]) else Lookup(more, key)
    ensures Lookup([], key).None?
  {
    assert ([part] + more)[1..] == more;
  }

  lemma LookupEnds(s: seq<byte>, key: seq<byte>)
    requires s == [] || s[0] == LF || s[0] == CR
    ensures Lookup(Split(s), key).None?
  {
    SplitAt(s);
    var n := NextAmp(s);
    if s == [] {
      assert Split(s) == [[]];
      assert Lookup([], key).None?;
    } else {
      assert n > 0;
      assert Split(s)[0][0] == s[0];
    }
  }

  // ---------------------------------------------------------------- whole forms

  datatype Field = Field(key: seq<byte>, chars: seq<Char>)

  ghost predicate Sendable(f: Field) {
    && (forall c <- f.chars :: Allowed(c))
    && 38 !in f.key && 61 !in f.key && 13 !in f.key && 10 !in f.key
  }

  function Pair(f: Field): seq<byte> { f.key + [61] + Encoded(f.chars) }

  /** The fields as a browser sends them. */
  function Form(fields: seq<Field>): seq<byte> {
    if fields == [] then []
    else if |fields| == 1 then Pair(fields[0])
    else Pair(fields[0]) + [38] + Form(fields[1..])
  }

  /** The data of the first field of that key. */
  function FieldOf(fields: seq<Field>, key: seq<byte>): Option<seq<byte>> {
    if fields == [] then None else if fields[0].key == key then Some(Values(fields[0].chars))
      else FieldOf(fields[1..], key)
  }

  lemma NoAmpChar(c: Char)
    requires Allowed(c)
    ensures AMP !in EncodedChar(c)
  {
    if c.style == Upper || c.style == Lower {
      var style := if c.style == Upper then Digits.Capitals else Digits.Small;
      Digits.CharacterIs(c.value / 16, style);
      Digits.CharacterIs(c.value % 16, style);
    }
    hide Digits.Character;
  }

  lemma {:induction false} NoAmpEncoded(chars: seq<Char>)
    requires forall c <- chars :: Allowed(c)
    ensures AMP !in Encoded(chars)
  {
    if chars != [] {
      assert Allowed(chars[0]);
      NoAmpChar(chars[0]);
      hide EncodedChar, Allowed;
      NoAmpEncoded(chars[1..]);
    }
  }

  /** No `=` occurs in either key, so a text starts with at most one of them. */
  lemma SameLength(s: seq<byte>, a: seq<byte>, b: seq<byte>)
    requires |a| < |s| && |b| < |s| && s[..|a|] == a && s[..|b|] == b
    requires s[|a|] == EQUALS && s[|b|] == EQUALS && EQUALS !in a && EQUALS !in b
    ensures a == b
  {
    forall i | 0 <= i < |a|
      ensures s[i] != EQUALS
    {
      assert s[i] == s[..|a|][i];
      assert s[i] in a;
    }
    forall i | 0 <= i < |b|
      ensures s[i] != EQUALS
    {
      assert s[i] == s[..|b|][i];
      assert s[i] in b;
    }
    assert |a| == |b|;
  }

  lemma PairMatches(f: Field, key: seq<byte>)
    requires Sendable(f) && EQUALS !in key
    ensures StartsWith(Pair(f), key + [EQUALS]) <==> f.key == key
    ensures Pair(f)[|f.key| + 1..] == Encoded(f.chars)
  {
    var s, k := Pair(f), key + [EQUALS];
    assert s[..|f.key| + 1] == f.key + [EQUALS];
    assert s[..|f.key|] == f.key;
    if StartsWith(s, k) {
      assert s[|key|] == s[..|k|][|key|];
      assert s[..|key|] == s[..|k|][..|key|];
      SameLength(s, f.key, key);
    }
  }

  lemma FormParts(fields: seq<Field>)
    requires fields != [] && Sendable(fields[0])
    ensures Split(Form(fields)) == [Pair(fields[0])] + (if |fields| == 1 then [] else Split(Form(fields[1..])))
  {
    hide Split, Encoded;
    var pair := Pair(fields[0]);
    NoAmpEncoded(fields[0].chars);
    assert AMP !in pair;
    hide Pair;
    if |fields| == 1 {
      SplitOne(pair);
    } else {
      SplitJoined(pair, Form(fields[1..]));
    }
  }

  lemma {:induction false} SplitJoined(a: seq<byte>, b: seq<byte>)
    requires AMP !in a
    ensures Split(a + [AMP] + b) == [a] + Split(b)
  {
    if a == [] {
      assert a + [AMP] + b == [AMP] + b;
      assert ([AMP] + b)[1..] == b;
      assert Split([AMP] + b) == [a] + Split(b);
    } else {
      var s := a + [AMP] + b;
      assert s[0] == a[0] && a[0] in a;
      assert s[1..] == a[1..] + [AMP] + b;
      SplitJoined(a[1..], b);
      SplitFirst(s, a[1..], Split(b));
      assert [a[0]] + a[1..] == a;
    }
  }

  /** One part of the search through a form. */
  lemma LookupPart(f: Field, more: seq<seq<byte>>, key: seq<byte>)
    requires Sendable(f) && EQUALS !in key
    ensures Lookup([Pair(f)] + more, key) == if f.key == key then Some(Encoded(f.chars)) else Lookup(more, key)
  {
    PairMatches(f, key);
    hide StartsWith, Encoded;
    assert ([Pair(f)] + more)[1..] == more;
    assert Pair(f)[0] == if f.key == [] then EQUALS else f.key[0];
  }

  /** What a form carries under a key is found under that key: the first field's data, decoded. */
  lemma {:induction false} FormRoundTrip(fields: seq<Field>, key: seq<byte>)
    requires (forall f <- fields :: Sendable(f)) && 61 !in key
    ensures var v := Lookup(Split(Form(fields)), key);
            FieldOf(fields, key) == if v.None? then None else Some(Decoded(v.value))
  {
    if fields == [] {
      LookupEnds([], key);
    } else {
      var f, rest := fields[0], fields[1..];
      FormParts(fields);
      LookupPart(f, if rest == [] then [] else Split(Form(rest)), key);
      DecodedEncoded(f.chars);
      hide Split, Decoded, Form, Pair;
      if f.key != key && rest != [] {
        FormRoundTrip(rest, key);
      }
    }
  }
}
