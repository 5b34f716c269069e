/**
 The characters of digits, and numbers printed with them.
 */
module Digits {
  import opened Bytes

  /** "0123456789ABCDEFGHIJKLMNOPQRSTUVWXYZ" */
  const CAPITALS: seq<byte> :=
    [48, 49, 50, 51, 52, 53, 54, 55, 56, 57,
     65, 66, 67, 68, 69, 70, 71, 72, 73, 74, 75, 76, 77, 78, 79, 80, 81, 82, 83, 84, 85, 86, 87, 88, 89, 90]

  /** "0123456789abcdefghijklmnopqrstuvwxyz" */
  const SMALL: seq<byte> :=
    [48, 49, 50, 51, 52, 53, 54, 55, 56, 57,
     97, 98, 99, 100, 101, 102, 103, 104, 105, 106, 107, 108, 109, 110, 111, 112, 113, 114, 115, 116, 117, 118, 119,
     120, 121, 122]

  datatype Style = Capitals | Small

  function Character(d: nat, style: Style): byte
    requires d < 36
  {
    if style.Capitals? then CAPITALS[d] else SMALL[d]
  }

  lemma CharacterIs(d: nat, style: Style)
    requires d < 36
    ensures Character(d, style) == if d < 10 then 48 + d else if style.Capitals? then 55 + d else 87 + d
  {
  }

  /** A number in a base, the most significant digit first. */
  function Printed(n: nat, base: nat, style: Style): seq<byte>
    requires 2 <= base <= 36
  {
    if n < base then [Character(n, style)] else Printed(n / base, base, style) + [Character(n % base, style)]
  }
}
