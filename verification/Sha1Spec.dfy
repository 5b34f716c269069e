/**
 SHA-1 as in FIPS 180-4: padding (section 5.1.1), the 80-word message schedule and the compression of a
 block (section 6.1.2).
 */
module Sha1Spec {
  type byte = bv8
  type word = bv32

  const BLOCK_LENGTH: nat := 64

  datatype Vars = Vars(a: word, b: word, c: word, d: word, e: word)

  const H0: Vars := Vars(0x67452301, 0xefcdab89, 0x98badcfe, 0x10325476, 0xc3d2e1f0)

  function Rotl(x: word, n: bv8): word
    requires 0 < n < 32
  {
    (x << n) | (x >> (32 - n))
  }

  // ---------------------------------------------------------------- one block

  function Ch(x: word, y: word, z: word): word { (x & y) ^ (!x & z) }

  function Parity(x: word, y: word, z: word): word { x ^ y ^ z }

  function Maj(x: word, y: word, z: word): word { (x & y) ^ (x & z) ^ (y & z) }

  function F(t: nat, x: word, y: word, z: word): word {
    if t < 20 then Ch(x, y, z) else if t < 40 then Parity(x, y, z) else if t < 60 then Maj(x, y, z) else Parity(x, y, z)
  }

  function K(t: nat): word {
    if t < 20 then 0x5a827999 else if t < 40 then 0x6ed9eba1 else if t < 60 then 0x8f1bbcdc else 0xca62c1d6
  }

  /** The message schedule. */
  function W(block: seq<word>, t: nat): word
    requires |block| == 16
  {
    if t < 16 then block[t]
    else Rotl(W(block, t - 3) ^ W(block, t - 8) ^ W(block, t - 14) ^ W(block, t - 16), 1)
  }

  function Round(v: Vars, t: nat, w: word): Vars {
    Vars(Sum(Rotl(v.a, 5), F(t, v.b, v.c, v.d), v.e, K(t), w), v.a, Rotl(v.b, 30), v.c, v.d)
  }

  /** The working variables after the first n of the 80 rounds. */
  function Rounds(block: seq<word>, h: Vars, n: nat): Vars
    requires |block| == 16
  {
    if n == 0 then h else Round(Rounds(block, h, n - 1), n - 1, W(block, n - 1))
  }

  function Sum(r: word, f: word, e: word, k: word, w: word): word { r + f + e + k + w }

  function Plus(x: word, y: word): word { x + y }

  function Add(h: Vars, v: Vars): Vars {
    Vars(Plus(h.a, v.a), Plus(h.b, v.b), Plus(h.c, v.c), Plus(h.d, v.d), Plus(h.e, v.e))
  }

  function Compress(h: Vars, block: seq<word>): Vars
    requires |block| == 16
  {
    Add(h, Rounds(block, h, 80))
  }

  // ---------------------------------------------------------------- messages

  /** Four octets as a word, the most significant first. */
  function WordOf(b0: byte, b1: byte, b2: byte, b3: byte): word {
    (b0 as word << 24) | (b1 as word << 16) | (b2 as word << 8) | b3 as word
  }

  function WordsOf(bytes: seq<byte>): (r: seq<word>)
    requires |bytes| == BLOCK_LENGTH
    ensures |r| == 16
  {
    seq(16, i requires 0 <= i < 16 => WordOf(bytes[4 * i], bytes[4 * i + 1], bytes[4 * i + 2], bytes[4 * i + 3]))
  }

  /** The hash value after whole blocks. */
  function HashBlocks(bytes: seq<byte>): Vars
    requires |bytes| % BLOCK_LENGTH == 0
  {
    if |bytes| == 0 then H0
    else
      var n := |bytes| - BLOCK_LENGTH;
      Compress(HashBlocks(bytes[..n]), WordsOf(bytes[n..]))
  }

  /** The smallest number of zero octets that leaves room for just the length in the last block. */
  function PadLength(n: nat): (k: nat)
    ensures k < BLOCK_LENGTH && (n + 1 + k) % BLOCK_LENGTH == BLOCK_LENGTH - 8
    ensures (n + 1 + k + 8) % BLOCK_LENGTH == 0
  {
    if n % 64 <= 55 then 55 - n % 64 else 119 - n % 64
  }

  function Zeros(n: nat): (r: seq<byte>)
    ensures |r| == n
  {
    seq(n, _ => 0)
  }

  function Octet(n: nat): byte { (n % 256) as byte }

  /** A 64-bit number, the most significant octet first. */
  function BigEndian64(n: nat): (r: seq<byte>)
    ensures |r| == 8
  {
    [Octet(n / 0x100_0000_0000_0000), Octet(n / 0x1_0000_0000_0000), Octet(n / 0x100_0000_0000),
        Octet(n / 0x1_0000_0000),
     Octet(n / 0x100_0000), Octet(n / 0x1_0000), Octet(n / 0x100), Octet(n)]
  }

  function Pad(msg: seq<byte>): (r: seq<byte>)
    ensures |r| % BLOCK_LENGTH == 0
  {
    hide PadLength, BigEndian64;
    var r := msg + [0x80] + Zeros(PadLength(|msg|)) + BigEndian64(8 * |msg|);
    assert |r| == |msg| + 1 + PadLength(|msg|) + 8;
    r
  }

  function OctetsOf(w: word): seq<byte> {
    [(w >> 24) as byte, ((w >> 16) & 0xFF) as byte, ((w >> 8) & 0xFF) as byte, (w & 0xFF) as byte]
  }

  function Digest(h: Vars): seq<byte> {
    OctetsOf(h.a) + OctetsOf(h.b) + OctetsOf(h.c) + OctetsOf(h.d) + OctetsOf(h.e)
  }

  function Sha1(msg: seq<byte>): seq<byte> { Digest(HashBlocks(Pad(msg))) }

  lemma DigestLength(msg: seq<byte>)
    ensures |Sha1(msg)| == 20
  {
  }
}
