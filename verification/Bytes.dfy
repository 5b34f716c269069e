/**
 Octets, and byte sequences put together from pieces.  `char` is unsigned on the target,
 so an octet is a number from 0 to 255.
 */
module Bytes {
  type byte = x: int | 0 <= x < 256

  /** The low eight bits of an int, as an assignment to a `char` keeps them. */
  function Low8(n: int): byte { n % 256 }

  // ---------------------------------------------------------------- exclusive or

  /** Exclusive or of the lowest n bits. */
  function XorBits(a: nat, b: nat, n: nat): (r: nat)
    ensures n <= 8 ==> r < Pow2(n)
  {
    if n == 0 then 0 else (if a % 2 == b % 2 then 0 else 1) + 2 * XorBits(a / 2, b / 2, n - 1)
  }

  function Pow2(n: nat): nat { if n == 0 then 1 else 2 * Pow2(n - 1) }

  function Xor(a: byte, b: byte): byte
  {
    assert Pow2(8) == 2 * 2 * 2 * 2 * Pow2(4);
    XorBits(a, b, 8)
  }

  lemma {:induction false} XorBitsTwice(a: nat, b: nat, n: nat)
    requires a < Pow2(n)
    ensures XorBits(XorBits(a, b, n), b, n) == a
  {
    if n > 0 {
      var rest := XorBits(a / 2, b / 2, n - 1);
      var low := if a % 2 == b % 2 then 0 else 1;
      LowBit(low, rest);
      XorBitsTwice(a / 2, b / 2, n - 1);
    }
  }

  lemma LowBit(low: nat, rest: nat)
    requires low < 2
    ensures (low + 2 * rest) % 2 == low && (low + 2 * rest) / 2 == rest
  {
  }

  lemma XorTwice(a: byte, b: byte)
    ensures Xor(Xor(a, b), b) == a
  {
    assert Pow2(8) == 2 * 2 * 2 * 2 * Pow2(4);
    XorBitsTwice(a, b, 8);
  }

  lemma {:induction false} XorZero(a: nat, n: nat)
    requires a < Pow2(n)
    ensures XorBits(a, 0, n) == a
  {
    if n > 0 {
      XorZero(a / 2, n - 1);
    }
  }

  /** Bit k of a number; bit 0 is the lowest. */
  function Bit(n: nat, k: nat): nat { if k == 0 then n % 2 else Bit(n / 2, k - 1) }

  lemma {:induction false} XorBitsAt(a: nat, b: nat, n: nat, k: nat)
    requires k < n
    ensures Bit(XorBits(a, b, n), k) == (Bit(a, k) + Bit(b, k)) % 2
    decreases n
  {
    LowBit(if a % 2 == b % 2 then 0 else 1, XorBits(a / 2, b / 2, n - 1));
    if k > 0 {
      XorBitsAt(a / 2, b / 2, n - 1, k - 1);
    }
  }

  /** A bit of the exclusive or is set exactly when it is set in one of the two. */
  lemma XorAt(a: byte, b: byte, k: nat)
    requires k < 8
    ensures Bit(Xor(a, b), k) == 1 <==> Bit(a, k) != Bit(b, k)
  {
    XorBitsAt(a, b, 8, k);
    BitIsBit(a, k);
    BitIsBit(b, k);
  }

  lemma {:induction false} BitIsBit(n: nat, k: nat)
    ensures Bit(n, k) < 2
    decreases k
  {
    if k > 0 {
      BitIsBit(n / 2, k - 1);
    }
  }

  // ---------------------------------------------------------------- bitwise and

  function AndBits(a: nat, b: nat, n: nat): (r: nat)
    ensures r <= a
  {
    if n == 0 then 0 else a % 2 * (b % 2) + 2 * AndBits(a / 2, b / 2, n - 1)
  }

  function And(a: byte, b: byte): byte { AndBits(a, b, 8) }

  lemma {:induction false} AndOnes(b: nat, n: nat)
    requires b < Pow2(n)
    ensures AndBits(Pow2(n) - 1, b, n) == b
  {
    if n > 0 {
      assert (Pow2(n) - 1) / 2 == Pow2(n - 1) - 1;
      AndOnes(b / 2, n - 1);
    }
  }

  lemma AndFF(b: byte)
    ensures And(255, b) == b
  {
    assert Pow2(8) == 2 * 2 * 2 * 2 * Pow2(4);
    AndOnes(b, 8);
  }

  lemma {:induction false} AndBitsAt(a: nat, b: nat, n: nat, k: nat)
    requires k < n
    ensures Bit(AndBits(a, b, n), k) == 1 <==> Bit(a, k) == 1 && Bit(b, k) == 1
    decreases n
  {
    LowProduct(a, b);
    LowBit(a % 2 * (b % 2), AndBits(a / 2, b / 2, n - 1));
    if k > 0 {
      AndBitsAt(a / 2, b / 2, n - 1, k - 1);
    }
  }

  lemma LowProduct(a: nat, b: nat)
    ensures a % 2 * (b % 2) == if a % 2 == 1 && b % 2 == 1 then 1 else 0
  {
  }

  /** A bit of the bitwise and is set exactly when it is set in both. */
  lemma AndAt(a: byte, b: byte, k: nat)
    requires k < 8
    ensures Bit(And(a, b), k) == 1 <==> Bit(a, k) == 1 && Bit(b, k) == 1
  {
    AndBitsAt(a, b, 8, k);
  }

  // ---------------------------------------------------------------- pieces

  function Flatten<T>(pieces: seq<seq<T>>): seq<T> {
    if pieces == [] then [] else pieces[0] + Flatten(pieces[1..])
  }

  lemma {:induction false} FlattenSplit<T>(a: seq<seq<T>>, b: seq<seq<T>>)
    ensures Flatten(a + b) == Flatten(a) + Flatten(b)
  {
    if a == [] {
      assert a + b == b;
    } else {
      assert (a + b)[1..] == a[1..] + b;
      FlattenSplit(a[1..], b);
    }
  }

  lemma FlattenOne<T>(p: seq<T>)
    ensures Flatten([p]) == p
  {
    assert Flatten([p][1..]) == [];
  }

  lemma FlattenAppend<T>(a: seq<seq<T>>, p: seq<T>)
    ensures Flatten(a + [p]) == Flatten(a) + p
  {
    FlattenSplit(a, [p]);
    FlattenOne(p);
  }

  // ---------------------------------------------------------------- memory

  /** The memory holds s at p. */
  ghost predicate At(mem: seq<byte>, p: nat, s: seq<byte>) {
    p + |s| <= |mem| && mem[p..p + |s|] == s
  }

  lemma AtParts(mem: seq<byte>, p: nat, a: seq<byte>, b: seq<byte>)
    requires At(mem, p, a + b)
    ensures At(mem, p, a) && At(mem, p + |a|, b)
  {
    var s := a + b;
    assert s[..|a|] == a && s[|a|..] == b;
    assert mem[p..p + |a|] == mem[p..p + |s|][..|a|];
    assert mem[p + |a|..p + |s|] == mem[p..p + |s|][|a|..];
  }

  /** The characters of a C string, up to its NUL or the end of the field. */
  function CString(field: seq<byte>): (r: seq<byte>)
    ensures |r| <= |field|
  {
    if field == [] || field[0] == 0 then [] else [field[0]] + CString(field[1..])
  }

  lemma {:induction false} CStringOf(s: seq<byte>, tail: seq<byte>)
    requires 0 !in s
    requires tail == [] || tail[0] == 0
    ensures CString(s + tail) == s
  {
    if s == [] {
      assert s + tail == tail;
    } else {
      assert (s + tail)[1..] == s[1..] + tail;
      CStringOf(s[1..], tail);
    }
  }

  function Zeros(n: nat): (r: seq<byte>)
    ensures |r| == n
  {
    seq(n, _ => 0)
  }

  // ---------------------------------------------------------------- numbers, the lowest byte first

  function Le32(n: int): (r: seq<byte>)
    ensures |r| == 4
  {
    [Low8(n), Low8(n / 0x100), Low8(n / 0x1_0000), Low8(n / 0x100_0000)]
  }

  function LittleEndian32(b: seq<byte>): nat
    requires |b| == 4
  {
    var b0: nat, b1: nat, b2: nat, b3: nat := b[0], b[1], b[2], b[3];
    b0 + 0x100 * b1 + 0x1_0000 * b2 + 0x100_0000 * b3
  }

  lemma Le32Back(n: nat)
    requires n < 0x1_0000_0000
    ensures LittleEndian32(Le32(n)) == n
  {
    LowByte(n);
    LowByte(n / 0x100);
    LowByte(n / 0x1_0000);
  }

  lemma LowestFirst()
    ensures Le32(0x0102_0304) == [4, 3, 2, 1]
  {
  }

  lemma LowByte(n: nat)
    ensures Low8(n) + n / 0x100 * 0x100 == n
    ensures n / 0x100 / 0x100 == n / 0x1_0000 && n / 0x1_0000 / 0x100 == n / 0x100_0000
    ensures n < 0x1_0000 ==> Low8(n / 0x100) == n / 0x100
  {
  }
}
