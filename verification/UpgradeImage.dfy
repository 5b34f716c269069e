/**
 `mkupgimg.c`: the combined upgrade image of two firmware files.
 */
module UpgradeImage {
  import opened Bytes
  import opened FlashUploadSpec

  /** The four bytes of `intToEsp`. */
  function IntToEsp(v: int): (r: seq<byte>)
    ensures |r| == 4
  {
    Le32(v)
  }

  function Header(tag: seq<byte>, len1: nat, len2: nat): (r: seq<byte>)
    requires |tag| <= 27
    ensures |r| == HEADER_SIZE
  {
    EHUG + tag + Zeros(28 - |tag|) + IntToEsp(len1) + IntToEsp(len2)
  }

  function Image(tag: seq<byte>, user1: seq<byte>, user2: seq<byte>): seq<byte>
    requires |tag| <= 27
  {
    Header(tag, |user1|, |user2|) + user1 + user2
  }

  datatype Result = Written(image: seq<byte>) | TagTooLong

  /** `main`, from the files' contents to the output file's. */
  method MakeImage(user1: seq<byte>, user2: seq<byte>, tag: seq<byte>) returns (r: Result)
    ensures r == if |tag| > 27 then TagTooLong else Written(Image(tag, user1, user2))
  {
    if |tag| > 27 {
      return TagTooLong;
    }
    var hdr := new byte[HEADER_SIZE](_ => 0);   // memset
    for k := 0 to 4
      invariant hdr[..] == EHUG[..k] + Zeros(HEADER_SIZE - k)
    {
      hdr[k] := EHUG[k];
    }
    for k := 0 to |tag|
      invariant hdr[..] == EHUG + tag[..k] + Zeros(HEADER_SIZE - 4 - k)
    {
      hdr[4 + k] := tag[k];
    }
    assert hdr[..] == EHUG + tag + Zeros(28 - |tag|) + Zeros(8);
    ghost var front := EHUG + tag + Zeros(28 - |tag|);
    PutInt(hdr, 32, |user1|, front, Zeros(4));
    PutInt(hdr, 36, |user2|, front + IntToEsp(|user1|), []);
    assert hdr[..] == Header(tag, |user1|, |user2|);
    r := Written(hdr[..] + user1 + user2);
  }

  /** Four bytes of the header. */
  method PutInt(hdr: array<byte>, at: nat, v: nat, ghost front: seq<byte>, ghost back: seq<byte>)
    requires hdr[..] == front + Zeros(4) + back && |front| == at
    modifies hdr
    ensures hdr[..] == front + IntToEsp(v) + back
  {
    hdr[at], hdr[at + 1], hdr[at + 2], hdr[at + 3] := Low8(v), Low8(v / 0x100), Low8(v / 0x1_0000),
        Low8(v / 0x100_0000);
    assert hdr[..] == front + IntToEsp(v) + back;
  }

  predicate IsName(tag: seq<byte>) {
    |tag| <= 27 && 0 !in tag
  }

  /** The upload reads back the tag and the two lengths that `mkupgimg` wrote. */
  lemma HeaderReadBack(tag: seq<byte>, len1: nat, len2: nat, rest: seq<byte>)
    requires IsName(tag) && len1 < 0x8000_0000 && len2 < 0x8000_0000
    ensures var data := Header(tag, len1, len2) + rest;
            && IsOta(data) && HeaderPresent(data)
            && OtaTag(data) == tag && OtaLen1(data) == len1 && OtaLen2(data) == len2
  {
    var data := Header(tag, len1, len2) + rest;
    assert data[..4] == EHUG;
    assert data[32..36] == IntToEsp(len1) && data[36..40] == IntToEsp(len2);
    Le32Back(len1);
    Le32Back(len2);
    assert data[4..31] == tag + Zeros(27 - |tag|);
    CStringOf(tag, Zeros(27 - |tag|));
  }
}
