/**
 `sha1.c`: SHA-1 with the 16-word circular schedule (the form of section 6.1.3 of FIPS 180-4), fed a
 byte at a time on a little-endian machine.
 */
module Sha1 {
  import opened Sha1Spec
  import Bytes

  // ---------------------------------------------------------------- the schedule in sixteen words

  /** Where word t of the schedule is kept. */
  function Slot(t: int): (n: nat)
    ensures n < 16
  {
    t % 16
  }

  /** After i rounds the buffer holds the last sixteen words of the schedule. */
  ghost predicate Window(buffer: seq<word>, block: seq<word>, i: nat) {
    && |buffer| == 16 && |block| == 16
    && forall t :: WindowStart(i) <= t < WindowStart(i) + 16 ==> buffer[Slot(t)] == W(block, t)
  }

  function WindowStart(i: nat): nat { if i < 16 then 0 else i - 16 }

  lemma WindowFirst(block: seq<word>)
    requires |block| == 16
    ensures Window(block, block, 0)
  {
  }

  /** Before the seventeenth round the words are used where they are. */
  lemma WindowEarly(buffer: seq<word>, block: seq<word>, i: nat)
    requires Window(buffer, block, i) && i < 16
    ensures buffer[Slot(i)] == W(block, i) && Window(buffer, block, i + 1)
  {
  }

  /** Later a new word overwrites the oldest one. */
  lemma WindowLate(buffer: seq<word>, block: seq<word>, i: nat)
    requires Window(buffer, block, i) && i >= 16
    ensures var x := Mix(buffer[Slot(i + 13)], buffer[Slot(i + 8)], buffer[Slot(i + 2)], buffer[Slot(i)]);
            x == W(block, i) && Window(buffer[Slot(i) := x], block, i + 1)
  {
    SlotBack(i);
    ScheduleStep(block, i);
    hide Mix, Slot, W;
    assert buffer[Slot(i - 3)] == W(block, i - 3);
    assert buffer[Slot(i - 8)] == W(block, i - 8);
    assert buffer[Slot(i - 14)] == W(block, i - 14);
    assert buffer[Slot(i - 16)] == W(block, i - 16);
    var r := buffer[Slot(i) := W(block, i)];
    forall t | i - 15 <= t < i + 1
      ensures r[Slot(t)] == W(block, t)
    {
      if t < i {
        SlotsDiffer(t, i);
        assert buffer[Slot(t)] == W(block, t);
      }
    }
  }

  function Mix(a: word, b: word, c: word, d: word): word { Rotl(a ^ b ^ c ^ d, 1) }

  lemma ScheduleStep(block: seq<word>, i: nat)
    requires |block| == 16 && i >= 16
    ensures W(block, i) == Mix(W(block, i - 3), W(block, i - 8), W(block, i - 14), W(block, i - 16))
  {
  }

  lemma SlotBack(i: nat)
    requires i >= 16
    ensures Slot(i + 13) == Slot(i - 3) && Slot(i + 8) == Slot(i - 8)
    ensures Slot(i + 2) == Slot(i - 14) && Slot(i) == Slot(i - 16)
  {
  }

  lemma SlotsDiffer(t: nat, i: nat)
    requires t < i < t + 16
    ensures Slot(t) != Slot(i)
  {
  }

  /** The code's form of the round functions. */
  function CodeF(i: nat, b: word, c: word, d: word): word {
    if i < 20 then d ^ (b & (c ^ d))
    else if i < 40 then b ^ c ^ d
    else if i < 60 then (b & c) | (d & (b | c))
    else b ^ c ^ d
  }

  lemma CodeFIsF(i: nat, b: word, c: word, d: word)
    ensures CodeF(i, b, c, d) == F(i, b, c, d)
  {
    ChForms(b, c, d);
    MajForms(b, c, d);
  }

  lemma ChForms(b: word, c: word, d: word)
    ensures d ^ (b & (c ^ d)) == Ch(b, c, d)
  {
  }

  lemma MajForms(b: word, c: word, d: word)
    ensures (b & c) | (d & (b | c)) == Maj(b, c, d)
  {
  }

  lemma SumForms(f: word, k: word, r: word, e: word, w: word)
    ensures f + k + (r + e + w) == Sum(r, f, e, k, w)
  {
  }

  function CodeTotal(f: word, k: word, r: word, e: word, w: word): word { f + k + (r + e + w) }

  /** The variable `t` at the end of a round. */
  function CodeSum(i: nat, a: word, b: word, c: word, d: word, e: word, w: word): word {
    CodeTotal(CodeF(i, b, c, d), K(i), Rotl(a, 5), e, w)
  }

  lemma CodeSumIsRound(i: nat, a: word, b: word, c: word, d: word, e: word, w: word)
    ensures Round(Vars(a, b, c, d, e), i, w) == Vars(CodeSum(i, a, b, c, d, e, w), a, Rotl(b, 30), c, d)
  {
    CodeFIsF(i, b, c, d);
    hide CodeF, F, Rotl, K;
    SumForms(F(i, b, c, d), K(i), Rotl(a, 5), e, w);
    hide Sum, CodeTotal;
  }

  // ---------------------------------------------------------------- bytes in words

  function Octet0(w: word): byte { (w >> 24) as byte }

  function Octet1(w: word): byte { ((w >> 16) & 0xFF) as byte }

  function Octet2(w: word): byte { ((w >> 8) & 0xFF) as byte }

  function Octet3(w: word): byte { (w & 0xFF) as byte }

  /** Octet j of a word, the most significant first. */
  function OctetAt(w: word, j: nat): byte
    requires j < 4
  {
    if j == 0 then Octet0(w) else if j == 1 then Octet1(w) else if j == 2 then Octet2(w) else Octet3(w)
  }

  function Put0(w: word, data: byte): word { (w & 0xFFFFFF00) | data as word }

  function Put1(w: word, data: byte): word { (w & 0xFFFF00FF) | (data as word << 8) }

  function Put2(w: word, data: byte): word { (w & 0xFF00FFFF) | (data as word << 16) }

  function Put3(w: word, data: byte): word { (w & 0x00FFFFFF) | (data as word << 24) }

  /** A store to byte m of a word's memory on a little-endian machine. */
  function StoreByte(w: word, m: nat, data: byte): word
    requires m < 4
  {
    if m == 0 then Put0(w, data) else if m == 1 then Put1(w, data) else if m == 2 then Put2(w, data) else Put3(w, data)
  }

  /** Where the octet goes that comes at `offset`: the bytes of each word the other way round. */
  function XorThree(offset: nat): nat { offset - offset % 4 + (3 - offset % 4) }

  /** `offset ^ 3` on a uint8_t. */
  function OffsetXorThree(offset: nat): nat
    requires offset < 64
  {
    Bytes.Xor(offset, 3)
  }

  lemma XorThreeIsXor(offset: nat)
    requires offset < 64
    ensures OffsetXorThree(offset) == XorThree(offset)
  {
    hide Bytes.XorBits;
    var half, quarter := offset / 2, offset / 4;
    XorOne(offset, 3, 1, 7);
    XorOne(half, 1, 0, 6);
    HalfTwice(offset);
    SixBits(quarter);
  }

  /** The lowest bit of an exclusive or with an odd number. */
  lemma XorOne(a: nat, b: nat, c: nat, n: nat)
    requires b == 2 * c + 1
    ensures Bytes.XorBits(a, b, n + 1) == 1 - a % 2 + 2 * Bytes.XorBits(a / 2, c, n)
  {
    assert b % 2 == 1 && b / 2 == c;
  }

  lemma HalfTwice(a: nat)
    ensures a / 2 / 2 == a / 4 && a % 4 == a / 2 % 2 * 2 + a % 2 && a - a % 4 == 4 * (a / 4)
  {
  }

  lemma SixBits(a: nat)
    requires a < 16
    ensures Bytes.XorBits(a, 0, 6) == a
  {
    assert Bytes.Pow2(6) == 2 * 2 * 2 * Bytes.Pow2(3);
    Bytes.XorZero(a, 6);
  }

  lemma XorThreeParts(n: nat)
    requires n < 64
    ensures XorThree(n) < 64 && XorThree(n) / 4 == n / 4 && XorThree(n) % 4 == 3 - n % 4
    ensures n / 4 < 16
  {
  }

  lemma OtherOctet(k: nat, n: nat)
    requires k < n && k / 4 == n / 4
    ensures k % 4 != n % 4
  {
  }

  /** Storing at `m ^ 3` puts the octet where the big-endian reading of the word has it. */
  lemma StoreIsBigEndian(w: word, j: nat, data: byte)
    requires j < 4
    ensures OctetAt(StoreByte(w, 3 - j, data), j) == data
    ensures forall i :: 0 <= i < 4 && i != j ==> OctetAt(StoreByte(w, 3 - j, data), i) == OctetAt(w, i)
  {
    StoreAt0(w, data);
    StoreAt1(w, data);
    StoreAt2(w, data);
    StoreAt3(w, data);
    hide Octet0, Octet1, Octet2, Octet3, Put0, Put1, Put2, Put3;
  }

  lemma StoreAt0(w: word, data: byte)
    ensures Octet0(Put0(w, data)) == Octet0(w) && Octet1(Put0(w, data)) == Octet1(w)
    ensures Octet2(Put0(w, data)) == Octet2(w) && Octet3(Put0(w, data)) == data
  {
  }

  lemma StoreAt1(w: word, data: byte)
    ensures Octet0(Put1(w, data)) == Octet0(w) && Octet1(Put1(w, data)) == Octet1(w)
    ensures Octet2(Put1(w, data)) == data && Octet3(Put1(w, data)) == Octet3(w)
  {
  }

  lemma StoreAt2(w: word, data: byte)
    ensures Octet0(Put2(w, data)) == Octet0(w) && Octet1(Put2(w, data)) == data
    ensures Octet2(Put2(w, data)) == Octet2(w) && Octet3(Put2(w, data)) == Octet3(w)
  {
  }

  lemma StoreAt3(w: word, data: byte)
    ensures Octet0(Put3(w, data)) == data && Octet1(Put3(w, data)) == Octet1(w)
    ensures Octet2(Put3(w, data)) == Octet2(w) && Octet3(Put3(w, data)) == Octet3(w)
  {
  }

  lemma WordOfOctets(w: word)
    ensures WordOf(OctetAt(w, 0), OctetAt(w, 1), OctetAt(w, 2), OctetAt(w, 3)) == w
  {
    WordFromOctets(w);
    hide WordOf, Octet0, Octet1, Octet2, Octet3;
  }

  lemma WordFromOctets(w: word)
    ensures WordOf(Octet0(w), Octet1(w), Octet2(w), Octet3(w)) == w
  {
  }

  /** The buffer holds the octets `pending` at its start. */
  ghost predicate Fills(buffer: seq<word>, pending: seq<byte>) {
    && |buffer| == 16 && |pending| <= 64
    && forall k :: 0 <= k < |pending| ==> OctetAt(buffer[k / 4], k % 4) == pending[k]
  }

  lemma FillNext(buffer: seq<word>, pending: seq<byte>, data: byte)
    requires Fills(buffer, pending) && |pending| < 64
    ensures var at := XorThree(|pending|);
            at < 64 && Fills(buffer[at / 4 := StoreByte(buffer[at / 4], at % 4, data)], pending + [data])
  {
    hide OctetAt, StoreByte, XorThree;
    var n := |pending|;
    XorThreeParts(n);
    StoreIsBigEndian(buffer[n / 4], n % 4, data);
    var r := buffer[n / 4 := StoreByte(buffer[n / 4], 3 - n % 4, data)];
    forall k | 0 <= k < n + 1
      ensures OctetAt(r[k / 4], k % 4) == (pending + [data])[k]
    {
      if k < n {
        assert OctetAt(buffer[k / 4], k % 4) == pending[k];
        if k / 4 == n / 4 {
          OtherOctet(k, n);
        }
      }
    }
  }

  lemma FilledWord(buffer: seq<word>, block: seq<byte>, i: nat)
    requires Fills(buffer, block) && |block| == 64 && i < 16
    ensures buffer[i] == WordOf(block[4 * i], block[4 * i + 1], block[4 * i + 2], block[4 * i + 3])
  {
    WordOfOctets(buffer[i]);
    hide OctetAt, WordOf;
    FilledOctet(buffer, block, i, 0);
    FilledOctet(buffer, block, i, 1);
    FilledOctet(buffer, block, i, 2);
    FilledOctet(buffer, block, i, 3);
    hide Fills;
  }

  lemma FilledOctet(buffer: seq<word>, block: seq<byte>, i: nat, j: nat)
    requires Fills(buffer, block) && |block| == 64 && i < 16 && j < 4
    ensures 4 * i + j < 64 && OctetAt(buffer[i], j) == block[4 * i + j]
  {
    hide OctetAt;
    var k := 4 * i + j;
    assert k / 4 == i && k % 4 == j;
    assert OctetAt(buffer[k / 4], k % 4) == block[k];
  }

  /** A full buffer is the block's sixteen words. */
  lemma FullBuffer(buffer: seq<word>, block: seq<byte>)
    requires Fills(buffer, block) && |block| == 64
    ensures buffer == WordsOf(block)
  {
    hide WordOf, OctetAt;
    assert |buffer| == 16;
    forall i | 0 <= i < 16
      ensures buffer[i] == WordsOf(block)[i]
    {
      FilledWord(buffer, block, i);
    }
  }

  // ---------------------------------------------------------------- the running hash

  function StateVars(state: seq<word>): Vars
    requires |state| == 5
  {
    Vars(state[0], state[1], state[2], state[3], state[4])
  }

  /** What a hash that was fed `msg` holds: the value after its whole blocks, and the octets of the
      block under way. */
  ghost predicate Absorbed(state: seq<word>, buffer: seq<word>, offset: nat, msg: seq<byte>) {
    && |state| == 5
    && offset < 64 && offset <= |msg| && (|msg| - offset) % 64 == 0
    && StateVars(state) == HashBlocks(msg[..|msg| - offset])
    && Fills(buffer, msg[|msg| - offset..])
  }

  lemma AbsorbedNothing(state: seq<word>, buffer: seq<word>)
    requires |state| == 5 && StateVars(state) == H0 && |buffer| == 16
    ensures Absorbed(state, buffer, 0, [])
  {
  }

  /** The buffer after one more octet is stored. */
  function Stored(buffer: seq<word>, offset: nat, data: byte): seq<word>
    requires |buffer| == 16 && offset < 64
  {
    var at := XorThree(offset);
    buffer[at / 4 := StoreByte(buffer[at / 4], at % 4, data)]
  }

  lemma AbsorbedMore(state: seq<word>, buffer: seq<word>, offset: nat, msg: seq<byte>, data: byte)
    requires Absorbed(state, buffer, offset, msg) && offset < 63
    ensures Absorbed(state, Stored(buffer, offset, data), offset + 1, msg + [data])
  {
    var n := |msg| - offset;
    assert (msg + [data])[..n] == msg[..n];
    assert (msg + [data])[n..] == msg[n..] + [data];
    FillNext(buffer, msg[n..], data);
  }

  /** The octet that completes a block: the block is compressed. */
  lemma AbsorbedBlock(state: seq<word>, buffer: seq<word>, msg: seq<byte>, data: byte, state': seq<word>,
                      buffer': seq<word>)
    requires Absorbed(state, buffer, 63, msg)
    requires |state'| == 5 && |buffer'| == 16
    requires StateVars(state') == Compress(StateVars(state), Stored(buffer, 63, data))
    ensures Absorbed(state', buffer', 0, msg + [data])
  {
    hide Compress, WordsOf, StoreByte;
    var n := |msg| - 63;
    var all := msg + [data];
    assert all[..n] == msg[..n];
    assert all[n..] == msg[n..] + [data];
    FillNext(buffer, msg[n..], data);
    FullBuffer(Stored(buffer, 63, data), all[n..]);
    hide Fills, Stored;
    assert all[..|all|] == all;
    BlockHashed(all, n);
    NothingPending(buffer');
    assert all[|all|..] == [];
  }

  lemma BlockHashed(all: seq<byte>, n: nat)
    requires n % 64 == 0 && |all| == n + 64
    ensures |all| % 64 == 0 && HashBlocks(all) == Compress(HashBlocks(all[..n]), WordsOf(all[n..]))
  {
  }

  lemma NothingPending(buffer: seq<word>)
    requires |buffer| == 16
    ensures Fills(buffer, [])
  {
  }

  /** The length octets of the code are the message's length in bits, for fewer than 2^32 octets. */
  lemma LengthOctets(n: nat)
    requires n < 0x1_0000_0000
    ensures BigEndian64(8 * n) == [0, 0, 0, Octet(n / 0x2000_0000), Octet(n / 0x20_0000), Octet(n / 0x2000),
        Octet(n / 0x20), Octet(8 * n)]
  {
    assert 8 * n / 0x100_0000_0000_0000 == 0 && 8 * n / 0x1_0000_0000_0000 == 0 && 8 * n / 0x100_0000_0000 == 0;
    assert 8 * n / 0x1_0000_0000 == n / 0x2000_0000 && 8 * n / 0x100_0000 == n / 0x20_0000;
    assert 8 * n / 0x1_0000 == n / 0x2000 && 8 * n / 0x100 == n / 0x20;
    assert Octet(0) == 0;
  }

  lemma EightOctets(n: nat, before: seq<byte>, after: seq<byte>)
    requires n < 0x1_0000_0000
    requires after == before + [0, 0, 0, Octet(n / 0x2000_0000)] + [Octet(n / 0x20_0000), Octet(n / 0x2000),
        Octet(n / 0x20), Octet(8 * n)]
    ensures after == before + BigEndian64(8 * n)
  {
    LengthOctets(n);
    hide BigEndian64, Octet;
  }

  function SwapWord(x: word): word {
    ((x << 24) & 0xff000000) | ((x << 8) & 0x00ff0000) | ((x >> 8) & 0x0000ff00) | ((x >> 24) & 0x000000ff)
  }

  /** The memory of a word on a little-endian machine. */
  function MemoryOf(w: word): seq<byte> {
    [(w & 0xFF) as byte, ((w >> 8) & 0xFF) as byte, ((w >> 16) & 0xFF) as byte, (w >> 24) as byte]
  }

  lemma SwappedMemory(x: word)
    ensures MemoryOf(SwapWord(x)) == OctetsOf(x)
  {
  }

  class Sha1Info {
    const buffer: array<word>
    const state: array<word>
    var byteCount: nat          // a uint32_t
    var bufferOffset: nat
    ghost var fed: seq<byte>    // everything that went through sha1_addUncounted
    ghost var written: nat      // how many bytes went through sha1_writebyte

    ghost predicate Valid()
      reads this, buffer, state
    {
      && buffer.Length == 16 && state.Length == 5 && buffer != state
      && Absorbed(state[..], buffer[..], bufferOffset, fed)
      && byteCount == written % 0x1_0000_0000
    }

    /** `sha1_init`. */
    constructor ()
      ensures Valid() && fresh(buffer) && fresh(state) && fed == [] && written == 0
    {
      buffer := new word[16](_ => 0);
      state := new word[5](_ => 0);
      byteCount, bufferOffset, fed, written := 0, 0, [], 0;
      new;
      state[0] := 0x67452301;
      state[1] := 0xefcdab89;
      state[2] := 0x98badcfe;
      state[3] := 0x10325476;
      state[4] := 0xc3d2e1f0;
      AbsorbedNothing(state[..], buffer[..]);
    }

    /** `sha1_hashBlock`. */
    method HashBlock()
      requires buffer.Length == 16 && state.Length == 5 && buffer != state
      modifies buffer, state
      ensures StateVars(state[..]) == Compress(old(StateVars(state[..])), old(buffer[..]))
    {
      hide Window, Rounds, Round, W, CodeSum, Rotl, Add, Slot;
      ghost var block, h := buffer[..], StateVars(state[..]);
      var a, b, c, d, e := state[0], state[1], state[2], state[3], state[4];
      WindowFirst(block);
      RoundsNone(block, h);
      for i := 0 to 80
        invariant Window(buffer[..], block, i)
        invariant Vars(a, b, c, d, e) == Rounds(block, h, i)
        invariant StateVars(state[..]) == h
      {
        NextWord(i, block);
        var t := CodeSum(i, a, b, c, d, e, buffer[Slot(i)]);
        RoundDone(block, h, i, a, b, c, d, e);
        e := d;
        d := c;
        c := Rotl(b, 30);
        b := a;
        a := t;
      }
      AddState(a, b, c, d, e);
    }

    /** The schedule's next word, from the seventeenth round on. */
    method NextWord(i: nat, ghost block: seq<word>)
      requires buffer.Length == 16 && buffer != state && Window(buffer[..], block, i)
      modifies buffer
      ensures |block| == 16 && Window(buffer[..], block, i + 1) && buffer[Slot(i)] == W(block, i)
    {
      ghost var words := buffer[..];
      assert |block| == 16;
      hide Window, W, Mix, Slot;
      if i >= 16 {
        WindowLate(words, block, i);
        buffer[Slot(i)] := Mix(buffer[Slot(i + 13)], buffer[Slot(i + 8)], buffer[Slot(i + 2)], buffer[Slot(i)]);
        assert buffer[..] == words[Slot(i) := W(block, i)];
      } else {
        WindowEarly(words, block, i);
      }
    }

    method AddState(a: word, b: word, c: word, d: word, e: word)
      requires state.Length == 5
      modifies state
      ensures StateVars(state[..]) == Add(old(StateVars(state[..])), Vars(a, b, c, d, e))
    {
      hide Plus;
      state[0] := Plus(state[0], a);
      state[1] := Plus(state[1], b);
      state[2] := Plus(state[2], c);
      state[3] := Plus(state[3], d);
      state[4] := Plus(state[4], e);
    }

    /** The octet is stored at `offset ^ 3` in the memory of the buffer, a word at a time in the model. */
    method StoreOctet(data: byte)
      requires buffer.Length == 16 && bufferOffset < 64
      modifies buffer
      ensures buffer[..] == Stored(old(buffer[..]), bufferOffset, data)
    {
      hide StoreByte, Stored, OffsetXorThree, XorThree;
      var at := OffsetXorThree(bufferOffset);
      XorThreeIsXor(bufferOffset);
      StoredIs(buffer[..], bufferOffset, data);
      buffer[at / 4] := StoreByte(buffer[at / 4], at % 4, data);
    }

    /** `sha1_addUncounted`. */
    method AddUncounted(data: byte)
      requires Valid()
      modifies this`bufferOffset, this`fed, buffer, state
      ensures Valid() && fed == old(fed) + [data]
      ensures bufferOffset == (old(bufferOffset) + 1) % 64
    {
      hide Absorbed, Compress, StoreByte, Stored;
      AbsorbedBounds(state[..], buffer[..], bufferOffset, fed);
      NextOffset(bufferOffset);
      ghost var s0, b0 := state[..], buffer[..];
      StoreOctet(data);
      bufferOffset := bufferOffset + 1;
      if bufferOffset == BLOCK_LENGTH {
        HashBlock();
        bufferOffset := 0;
        AbsorbedBlock(s0, b0, fed, data, state[..], buffer[..]);
      } else {
        AbsorbedMore(s0, b0, bufferOffset - 1, fed, data);
      }
      fed := fed + [data];
    }

    /** `sha1_writebyte`. */
    method WriteByte(data: byte)
      requires Valid()
      modifies this, buffer, state
      ensures Valid() && fed == old(fed) + [data] && written == old(written) + 1
    {
      hide Absorbed;
      byteCount := (byteCount + 1) % 0x1_0000_0000;
      written := written + 1;
      AddUncounted(data);
    }

    /** `sha1_write`. */
    method Write(data: seq<byte>)
      requires Valid()
      modifies this, buffer, state
      ensures Valid() && fed == old(fed) + data && written == old(written) + |data|
    {
      hide Absorbed;
      for k := 0 to |data|
        invariant Valid() && fed == old(fed) + data[..k] && written == old(written) + k
      {
        WriteByte(data[k]);
        assert data[..k + 1] == data[..k] + [data[k]];
      }
      assert data[..|data|] == data;
    }

    /** `sha1_pad`, after fewer than 2^32 bytes. */
    method PadMessage()
      requires Valid() && |fed| == written < 0x1_0000_0000
      modifies this, buffer, state
      ensures Valid() && fed == Pad(old(fed)) && bufferOffset == 0
    {
      hide Absorbed, PadLength, BigEndian64, Octet, Offset, Zeros;
      ghost var msg := fed;
      AbsorbedBounds(state[..], buffer[..], bufferOffset, fed);
      AddUncounted(0x80);
      ghost var k := 0;
      ZerosMore(0);
      PadSteps(|msg|, 0);
      while bufferOffset != 56
        invariant Valid() && byteCount == |msg| && k <= PadLength(|msg|)
        invariant fed == msg + [0x80] + Zeros(k)
        invariant bufferOffset == Offset(|msg| + 1 + k)
        decreases PadLength(|msg|) - k
      {
        PadSteps(|msg|, k);
        AddUncounted(0x00);
        ZerosMore(k);
        k := k + 1;
        PadSteps(|msg|, k);
      }
      PadSteps(|msg|, k);
      AddLength();
      PadIs(msg);
      AbsorbedBounds(state[..], buffer[..], bufferOffset, fed);
    }

    /** The last eight octets of the padding. */
    method AddLength()
      requires Valid() && byteCount < 0x1_0000_0000
      modifies this`bufferOffset, this`fed, buffer, state
      ensures Valid() && fed == old(fed) + BigEndian64(8 * byteCount)
    {
      hide Absorbed, Octet, BigEndian64;
      AddFour(0, 0, 0, Octet(byteCount / 0x2000_0000));                       // >> 29
      AddFour(Octet(byteCount / 0x20_0000), Octet(byteCount / 0x2000),        // >> 21, >> 13
              Octet(byteCount / 0x20), Octet(8 * byteCount));                 // >> 5, << 3
      EightOctets(byteCount, old(fed), fed);
    }

    method AddFour(d0: byte, d1: byte, d2: byte, d3: byte)
      requires Valid()
      modifies this`bufferOffset, this`fed, buffer, state
      ensures Valid() && fed == old(fed) + [d0, d1, d2, d3]
    {
      hide Absorbed;
      AddUncounted(d0);
      AddUncounted(d1);
      AddUncounted(d2);
      AddUncounted(d3);
    }

    /** `sha1_result`: the memory of the state words, swapped back. */
    method Result() returns (hash: seq<byte>)
      requires Valid() && |fed| == written < 0x1_0000_0000
      modifies this, buffer, state
      ensures hash == Sha1(old(fed))
    {
      hide Absorbed, HashBlocks, Pad, Digest;
      ghost var msg := fed;
      PadMessage();
      AbsorbedBounds(state[..], buffer[..], bufferOffset, fed);
      hash := SwapState();
    }

    method SwapState() returns (hash: seq<byte>)
      requires state.Length == 5
      modifies state
      ensures hash == Digest(old(StateVars(state[..])))
    {
      hide SwapWord, MemoryOf, OctetsOf;
      ghost var h := StateVars(state[..]);
      SwappedMemory(h.a);
      SwappedMemory(h.b);
      SwappedMemory(h.c);
      SwappedMemory(h.d);
      SwappedMemory(h.e);
      state[0] := SwapWord(state[0]);
      state[1] := SwapWord(state[1]);
      state[2] := SwapWord(state[2]);
      state[3] := SwapWord(state[3]);
      state[4] := SwapWord(state[4]);
      hash := MemoryOf(state[0]) + MemoryOf(state[1]) + MemoryOf(state[2]) + MemoryOf(state[3]) + MemoryOf(state[4]);
    }
  }

  lemma RoundsNone(block: seq<word>, h: Vars)
    requires |block| == 16
    ensures Rounds(block, h, 0) == h
  {
  }

  /** One round in the code's form is one round of the standard. */
  lemma RoundDone(block: seq<word>, h: Vars, i: nat, a: word, b: word, c: word, d: word, e: word)
    requires |block| == 16 && Vars(a, b, c, d, e) == Rounds(block, h, i)
    ensures Rounds(block, h, i + 1)
         == Vars(CodeSum(i, a, b, c, d, e, W(block, i)), a, Rotl(b, 30), c, d)
  {
    CodeSumIsRound(i, a, b, c, d, e, W(block, i));
    hide CodeSum, W, Rotl, F, K;
  }

  lemma AbsorbedBounds(state: seq<word>, buffer: seq<word>, offset: nat, msg: seq<byte>)
    requires Absorbed(state, buffer, offset, msg)
    ensures offset < 64 && |buffer| == 16 && |state| == 5 && offset == |msg| % 64
    ensures offset == 0 ==> |msg| % 64 == 0 && StateVars(state) == HashBlocks(msg)
  {
    hide HashBlocks, StateVars;
    OffsetIsRest(|msg|, offset);
    if offset == 0 {
      assert msg[..|msg|] == msg;
    }
  }

  lemma OffsetIsRest(n: nat, offset: nat)
    requires offset < 64 && offset <= n && (n - offset) % 64 == 0
    ensures offset == n % 64
  {
  }

  lemma NextOffset(offset: nat)
    requires offset < 64
    ensures (offset + 1) % 64 == if offset == 63 then 0 else offset + 1
  {
  }

  lemma StoredIs(buffer: seq<word>, offset: nat, data: byte)
    requires |buffer| == 16 && offset < 64
    ensures var at := XorThree(offset);
            at < 64 && Stored(buffer, offset, data) == buffer[at / 4 := StoreByte(buffer[at / 4], at % 4, data)]
  {
  }

  /** Where in its block octet n goes. */
  function Offset(n: nat): nat { n % 64 }

  /** The padding loop stops after exactly the padding length of the standard. */
  lemma PadSteps(n: nat, k: nat)
    requires k <= PadLength(n)
    ensures Offset(n + 1 + k) == 56 <==> k == PadLength(n)
    ensures (Offset(n + 1 + k) + 1) % 64 == Offset(n + 1 + (k + 1))
    ensures (n % 64 + 1) % 64 == Offset(n + 1)
  {
    NextMod(n);
    NextMod(n + 1 + k);
    var m := n % 64;
    assert (n + 1 + k) % 64 == (m + 1 + k) % 64;
    SmallPad(m, k);
  }

  lemma ZerosMore(k: nat)
    ensures Zeros(0) == [] && Zeros(k) + [0] == Zeros(k + 1)
  {
  }

  lemma PadIs(msg: seq<byte>)
    ensures Pad(msg) == msg + [0x80] + Zeros(PadLength(|msg|)) + BigEndian64(8 * |msg|)
    ensures |Pad(msg)| % 64 == 0
  {
  }

  lemma NextMod(n: nat)
    ensures (n % 64 + 1) % 64 == (n + 1) % 64
  {
  }

  lemma SmallPad(m: nat, k: nat)
    requires m < 64 && k <= PadLength(m)
    ensures (m + 1 + k) % 64 == 56 <==> k == PadLength(m)
  {
  }

  /** A message written in any pieces has the hash of the whole. */
  method HashOf(pieces: seq<seq<byte>>, ghost msg: seq<byte>) returns (hash: seq<byte>)
    requires msg == Joined(pieces) && |msg| < 0x1_0000_0000
    ensures hash == Sha1(msg)
  {
    hide Sha1Spec.Sha1, Absorbed;
    var s := new Sha1Info();
    assert Joined(pieces[..0]) == [];
    for k := 0 to |pieces|
      invariant fresh(s) && fresh(s.buffer) && fresh(s.state) && s.Valid()
      invariant s.fed == Joined(pieces[..k]) && s.written == |s.fed|
    {
      s.Write(pieces[k]);
      assert pieces[..k + 1] == pieces[..k] + [pieces[k]];
      JoinedAppend(pieces[..k], pieces[k]);
    }
    assert pieces[..|pieces|] == pieces;
    hash := s.Result();
  }

  function Joined(pieces: seq<seq<byte>>): seq<byte> {
    if pieces == [] then [] else pieces[0] + Joined(pieces[1..])
  }

  lemma {:induction false} JoinedAppend(pieces: seq<seq<byte>>, p: seq<byte>)
    ensures Joined(pieces + [p]) == Joined(pieces) + p
  {
    if pieces == [] {
      assert (pieces + [p])[1..] == [];
    } else {
      assert (pieces + [p])[1..] == pieces[1..] + [p];
      JoinedAppend(pieces[1..], p);
    }
  }
}
