/**
 The server's answer to a WebSocket client's key in `cgiwebsocket.c` (section 4.2.2 of RFC 6455), which
 puts SHA-1 and base64 together.
 */
module WebSocketHandshake {
  import opened Bytes
  import Base64
  import Base64Spec
  import Sha1
  import Sha1Spec

  const BUFFER_SIZE: nat := 256

  /** "258EAFA5-E914-47DA-95CA-C5AB0DC85B11" */
  const GUID: seq<byte> :=
    [50, 53, 56, 69, 65, 70, 65, 53, 45, 69, 57, 49, 52, 45, 52, 55, 68, 65,
     45, 57, 53, 67, 65, 45, 67, 53, 65, 66, 48, 68, 67, 56, 53, 66, 49, 49]

  /** Octets in the two forms in which this model has them. */
  function Bits(s: seq<byte>): (r: seq<Sha1Spec.byte>)
    ensures |r| == |s|
  {
    seq(|s|, i requires 0 <= i < |s| => s[i] as bv8)
  }

  function Octets(s: seq<Sha1Spec.byte>): (r: seq<byte>)
    ensures |r| == |s|
  {
    seq<byte>(|s|, i requires 0 <= i < |s| => Octet(s[i]))
  }

  function Octet(b: Sha1Spec.byte): byte { b as int }

  /** The value of the Sec-WebSocket-Accept header. */
  function AcceptValue(key: seq<byte>): seq<byte> { Base64Spec.Encoding(Octets(Sha1Spec.Sha1(Bits(key + GUID)))) }

  /** `strcat(buff, WS_GUID)`. */
  method AppendGuid(buff: array<byte>, keyLen: nat)
    requires keyLen + |GUID| < buff.Length
    modifies buff
    ensures buff[..keyLen + |GUID|] == old(buff[..keyLen]) + GUID
  {
    for k := 0 to |GUID|
      invariant buff[..keyLen] == old(buff[..keyLen])
      invariant forall j :: 0 <= j < k ==> buff[keyLen + j] == GUID[j]
    {
      buff[keyLen + k] := GUID[k];
    }
    assert buff[..keyLen + |GUID|] == buff[..keyLen] + buff[keyLen..keyLen + |GUID|];
    assert buff[keyLen..keyLen + |GUID|] == GUID;
    buff[keyLen + |GUID|] := 0;
  }

  method Hash(text: seq<Sha1Spec.byte>) returns (digest: seq<Sha1Spec.byte>)
    requires |text| < 0x1_0000_0000
    ensures digest == Sha1Spec.Sha1(text) && |digest| == 20
  {
    hide Sha1Spec.Sha1, Sha1.Absorbed;
    var s := new Sha1.Sha1Info();
    s.Write(text);
    assert [] + text == text;
    digest := s.Result();
    Sha1Spec.DigestLength(text);
  }

  /** 20 octets and their NUL fit the buffer. */
  lemma Encoded(digest: seq<byte>, r: int, before: seq<byte>, after: seq<byte>)
    requires |digest| == 20 && |before| == BUFFER_SIZE
    requires Base64.Outcome(r, |Base64.EncodedText(digest)| - 1, Base64.EncodedText(digest), before, after)
    ensures |Base64Spec.Encoding(digest)| == 28 && r == 28
    ensures |after| == BUFFER_SIZE && after[..28] == Base64Spec.Encoding(digest) && after[28] == 0
  {
    hide Base64Spec.Encoding;
    assert |Base64.EncodedText(digest)| == 29;
  }

  /** The key is read into the buffer; its answer replaces it there as a C string. */
  method Accept(buff: array<byte>, keyLen: nat)
    requires buff.Length == BUFFER_SIZE && keyLen + |GUID| < BUFFER_SIZE
    modifies buff
    ensures |AcceptValue(old(buff[..keyLen]))| == 28
    ensures buff[..28] == AcceptValue(old(buff[..keyLen])) && buff[28] == 0
  {
    hide Sha1Spec.Sha1, Base64Spec.Encoding, Octets, Bits, Base64.Outcome, Base64.EncodedText, GUID;
    AppendGuid(buff, keyLen);
    ghost var before := buff[..];
    var digest := Hash(Bits(buff[..keyLen + |GUID|]));
    var n := Base64.Encode(Octets(digest), buff);
    Encoded(Octets(digest), n, before, buff[..]);
  }
}
