/**
 The handshake of section 1.3 of RFC 6455: the key "dGhlIHNhbXBsZSBub25jZQ==" is answered with
 "s3pPLMBiTxaQ9kYGzzhZRbK+xOo=".  Key and GUID make two blocks of SHA-1, whose schedules and rounds are
 written out here.
 */
module HandshakeExample {
  import opened Sha1Spec
  import Base64Spec
  import Bytes
  import WebSocketHandshake

  /** "dGhlIHNhbXBsZSBub25jZQ==" */
  const KEY: seq<Bytes.byte> :=
    [100, 71, 104, 108, 73, 72, 78, 104, 98, 88, 66, 115,
     90, 83, 66, 117, 98, 50, 53, 106, 90, 81, 61, 61]

  const FIRST: seq<word> :=
    [0x6447686c, 0x49484e68, 0x62584273, 0x5a534275, 0x6232356a, 0x5a513d3d, 0x32353845, 0x41464135,
     0x2d453931, 0x342d3437, 0x44412d39, 0x3543412d, 0x43354142, 0x30444338, 0x35423131, 0x80000000]

  const MIDDLE: Vars := Vars(0x5bcf7727, 0x7327416a, 0xbe7bfbf9, 0x5a781878, 0x5e46a4e2)

  const SECOND: seq<word> :=
    [0, 0, 0, 0, 0, 0, 0, 0, 0, 0, 0, 0, 0, 0, 0, 480]

  const LAST: Vars := Vars(0xb37a4f2c, 0xc0624f16, 0x90f64606, 0xcf385945, 0xb2bec4ea)

  // ---------------------------------------------------------------- the first block

  predicate FirstWords0(b: seq<word>)
    requires |b| == 16
  {
    && W(b, 0) == 0x6447686c && W(b, 1) == 0x49484e68 && W(b, 2) == 0x62584273 && W(b, 3) == 0x5a534275
    && W(b, 4) == 0x6232356a && W(b, 5) == 0x5a513d3d && W(b, 6) == 0x32353845 && W(b, 7) == 0x41464135
    && W(b, 8) == 0x2d453931 && W(b, 9) == 0x342d3437 && W(b, 10) == 0x44412d39 && W(b, 11) == 0x3543412d
    && W(b, 12) == 0x43354142 && W(b, 13) == 0x30444338 && W(b, 14) == 0x35423131 && W(b, 15) == 0x80000000
    && W(b, 16) == 0x363ca02c && W(b, 17) == 0x24e81236 && W(b, 18) == 0x8856b441 && W(b, 19) == 0x06fb3c92
  }

  predicate FirstWords20(b: seq<word>)
    requires |b| == 16
  {
    && W(b, 20) == 0x6fb4bcb6 && W(b, 21) == 0x460b16e3 && W(b, 22) == 0x599219ae && W(b, 23) == 0x35bf9369
    && W(b, 24) == 0x3267458e && W(b, 25) == 0xf828fd04 && W(b, 26) == 0x753a96a7 && W(b, 27) == 0x6336f612
    && W(b, 28) == 0xc3d66383 && W(b, 29) == 0x06eb86f9 && W(b, 30) == 0x73b4fd42 && W(b, 31) == 0xa503c5b8
    && W(b, 32) == 0x15cdae35 && W(b, 33) == 0x531e5dc5 && W(b, 34) == 0x6fb6b7d0 && W(b, 35) == 0x6c16e4ac
    && W(b, 36) == 0x4ddd36bd && W(b, 37) == 0x35d36946 && W(b, 38) == 0xe8ae8b9c && W(b, 39) == 0x4a933ad0
  }

  predicate FirstWords40(b: seq<word>)
    requires |b| == 16
  {
    && W(b, 40) == 0xce8628b4 && W(b, 41) == 0x415dba9e && W(b, 42) == 0x2792f049 && W(b, 43) == 0x8e9b79e7
    && W(b, 44) == 0x79c425c5 && W(b, 45) == 0x6353b49d && W(b, 46) == 0x00994218 && W(b, 47) == 0x8a950ed1
    && W(b, 48) == 0xaf5d0b99 && W(b, 49) == 0xfd9883de && W(b, 50) == 0x1ed8ffeb && W(b, 51) == 0xf007ff28
    && W(b, 52) == 0x425e3674 && W(b, 53) == 0x059631c0 && W(b, 54) == 0xad6c3c31 && W(b, 55) == 0x860b71d7
    && W(b, 56) == 0x87bfc548 && W(b, 57) == 0x3e64f92d && W(b, 58) == 0x8d0ab761 && W(b, 59) == 0x34e1ee35
  }

  predicate FirstWords60(b: seq<word>)
    requires |b| == 16
  {
    && W(b, 60) == 0x0acf5108 && W(b, 61) == 0xc2b479da && W(b, 62) == 0x6c93370a && W(b, 63) == 0xf7935ba1
    && W(b, 64) == 0xe91c91c1 && W(b, 65) == 0xbed165a2 && W(b, 66) == 0x4c3e4abe && W(b, 67) == 0x50d96238
    && W(b, 68) == 0xb6587dde && W(b, 69) == 0x1a2ee6e6 && W(b, 70) == 0x2d335896 && W(b, 71) == 0xf3495d0b
    && W(b, 72) == 0xf30e0a1d && W(b, 73) == 0x32ce5459 && W(b, 74) == 0x7165e3b8 && W(b, 75) == 0xab05ff94
    && W(b, 76) == 0xc5949f0b && W(b, 77) == 0xbcd84e4a && W(b, 78) == 0x07720392 && W(b, 79) == 0xff3ff806
  }

  lemma FirstSchedule0(b: seq<word>)
    requires b == FIRST
    ensures FirstWords0(b)
  {
  }

  lemma FirstSchedule20(b: seq<word>)
    requires |b| == 16 && FirstWords0(b)
    ensures FirstWords20(b)
  {
  }

  lemma FirstSchedule40(b: seq<word>)
    requires |b| == 16 && FirstWords20(b)
    ensures FirstWords40(b)
  {
  }

  lemma FirstSchedule60(b: seq<word>)
    requires |b| == 16 && FirstWords40(b)
    ensures FirstWords60(b)
  {
  }

  lemma FirstRounds0(b: seq<word>, h: Vars)
    requires |b| == 16 && FirstWords0(b)
    requires Rounds(b, h, 0) == Vars(0x67452301, 0xefcdab89, 0x98badcfe, 0x10325476, 0xc3d2e1f0)
    ensures Rounds(b, h, 20) == Vars(0x091ab97c, 0x8dc510b6, 0xdfaeca5a, 0x75f6bd5d, 0x2801311a)
  {
    assert Rounds(b, h, 2) == Vars(0x2f793f55, 0x03fc011f, 0x59d148c0, 0x7bf36ae2, 0x98badcfe);
    assert Rounds(b, h, 4) == Vars(0x53e039ac, 0xbe90ee8f, 0x4bde4fd5, 0xc0ff0047, 0x59d148c0);
    assert Rounds(b, h, 6) == Vars(0x7320b969, 0xdd8c7c12, 0x14f80e6b, 0xefa43ba3, 0x4bde4fd5);
    assert Rounds(b, h, 8) == Vars(0x2e0ce601, 0x73553e84, 0x5cc82e5a, 0xb7631f04, 0x14f80e6b);
    assert Rounds(b, h, 10) == Vars(0xfaad2675, 0x32beb05a, 0x4b833980, 0x1cd54fa1, 0x5cc82e5a);
    assert Rounds(b, h, 12) == Vars(0x34ceb986, 0x5ff4238c, 0x7eab499d, 0x8cafac16, 0x4b833980);
    assert Rounds(b, h, 14) == Vars(0xae1a096e, 0x61bdb2bf, 0x8d33ae61, 0x17fd08e3, 0x7eab499d);
    assert Rounds(b, h, 16) == Vars(0xa004c468, 0xe922cc9d, 0xab86825b, 0xd86f6caf, 0x8d33ae61);
    assert Rounds(b, h, 18) == Vars(0x7ebb296b, 0xd7daf575, 0x2801311a, 0x7a48b327, 0xab86825b);
  }

  lemma FirstRounds20(b: seq<word>, h: Vars)
    requires |b| == 16 && FirstWords20(b)
    requires Rounds(b, h, 20) == Vars(0x091ab97c, 0x8dc510b6, 0xdfaeca5a, 0x75f6bd5d, 0x2801311a)
    ensures Rounds(b, h, 40) == Vars(0x2ba2c83e, 0xd0869081, 0x1a1d8209, 0xd3334889, 0x2779e4f2)
  {
    assert Rounds(b, h, 22) == Vars(0xd12f0b56, 0x518470a3, 0x0246ae5f, 0xa371442d, 0xdfaeca5a);
    assert Rounds(b, h, 24) == Vars(0x250e26ef, 0xbeafd554, 0xb44bc2d5, 0xd4611c28, 0x0246ae5f);
    assert Rounds(b, h, 26) == Vars(0x748b39a0, 0x23d1c91b, 0xc94389bb, 0x2fabf555, 0xb44bc2d5);
    assert Rounds(b, h, 28) == Vars(0x571f7d82, 0xef012f20, 0x1d22ce68, 0xc8f47246, 0xc94389bb);
    assert Rounds(b, h, 30) == Vars(0x081b63e5, 0x1abb1c37, 0x95c7df60, 0x3bc04bc8, 0x1d22ce68);
    assert Rounds(b, h, 32) == Vars(0xa6680a1f, 0xb7dabc8b, 0x4206d8f9, 0xc6aec70d, 0x95c7df60);
    assert Rounds(b, h, 34) == Vars(0xeeaba35a, 0x1ae360a9, 0xe99a0287, 0xedf6af22, 0x4206d8f9);
    assert Rounds(b, h, 36) == Vars(0x9de793c8, 0x149bb4d3, 0xbbaae8d6, 0x46b8d82a, 0xe99a0287);
    assert Rounds(b, h, 38) == Vars(0x68760824, 0x4ccd2227, 0x2779e4f2, 0xc526ed34, 0xbbaae8d6);
  }

  lemma FirstRounds40(b: seq<word>, h: Vars)
    requires |b| == 16 && FirstWords40(b)
    requires Rounds(b, h, 40) == Vars(0x2ba2c83e, 0xd0869081, 0x1a1d8209, 0xd3334889, 0x2779e4f2)
    ensures Rounds(b, h, 60) == Vars(0x4872d85a, 0xd284f163, 0x83091f0b, 0x1bbdbfbd, 0x9f8490bc)
  {
    assert Rounds(b, h, 42) == Vars(0x4f589a44, 0xcb8c52d0, 0x8ae8b20f, 0x7421a420, 0x1a1d8209);
    assert Rounds(b, h, 44) == Vars(0x6dc6a3d7, 0x868829b7, 0x13d62691, 0x32e314b4, 0x8ae8b20f);
    assert Rounds(b, h, 46) == Vars(0x72ff334d, 0x5f5f3452, 0xdb71a8f5, 0xe1a20a6d, 0x13d62691);
    assert Rounds(b, h, 48) == Vars(0xabe1748a, 0xdee4b7a8, 0x5cbfccd3, 0x97d7cd14, 0xdb71a8f5);
    assert Rounds(b, h, 50) == Vars(0x065f8486, 0x7510d04f, 0xaaf85d22, 0x37b92dea, 0x5cbfccd3);
    assert Rounds(b, h, 52) == Vars(0x10e7f671, 0x0e5d77c4, 0x8197e121, 0xdd443413, 0xaaf85d22);
    assert Rounds(b, h, 54) == Vars(0x4c608ac4, 0x26c69395, 0x4439fd9c, 0x03975df1, 0x8197e121);
    assert Rounds(b, h, 56) == Vars(0x7e1242f2, 0x50c9104c, 0x131822b1, 0x49b1a4e5, 0x4439fd9c);
    assert Rounds(b, h, 58) == Vars(0x0c247c2e, 0x6ef6fef4, 0x9f8490bc, 0x14324413, 0x131822b1);
  }

  lemma FirstRounds60(b: seq<word>, h: Vars)
    requires |b| == 16 && FirstWords60(b)
    requires Rounds(b, h, 60) == Vars(0x4872d85a, 0xd284f163, 0x83091f0b, 0x1bbdbfbd, 0x9f8490bc)
    ensures Rounds(b, h, 80) == Vars(0xf48a5426, 0x835995e1, 0x25c11efb, 0x4a45c402, 0x9a73c2f2)
  {
    assert Rounds(b, h, 62) == Vars(0x90f00d8f, 0xcd4200b8, 0x921cb616, 0xf4a13c58, 0x83091f0b);
    assert Rounds(b, h, 64) == Vars(0x685e2ff6, 0x840054d3, 0xe43c0363, 0x3350802e, 0x921cb616);
    assert Rounds(b, h, 66) == Vars(0xc3c2e45b, 0xa4cee018, 0x9a178bfd, 0xe1001534, 0xe43c0363);
    assert Rounds(b, h, 68) == Vars(0xcf8658ec, 0x53131a40, 0xf0f0b916, 0x2933b806, 0x9a178bfd);
    assert Rounds(b, h, 70) == Vars(0x07381b7e, 0x966e049a, 0x33e1963b, 0x14c4c690, 0xf0f0b916);
    assert Rounds(b, h, 72) == Vars(0x7e65e044, 0x80d59773, 0x81ce06df, 0xa59b8126, 0x33e1963b);
    assert Rounds(b, h, 74) == Vars(0x143a8388, 0x628e7b47, 0x1f997811, 0xe03565dc, 0x81ce06df);
    assert Rounds(b, h, 76) == Vars(0x69cf0bca, 0xe20983f9, 0x050ea0e2, 0xd8a39ed1, 0x1f997811);
    assert Rounds(b, h, 78) == Vars(0x97047bec, 0x29171009, 0x9a73c2f2, 0x788260fe, 0x050ea0e2);
  }

  lemma FirstBlock()
    ensures Compress(H0, FIRST) == MIDDLE
  {
    var b := FIRST;
    FirstSchedule0(b);
    FirstSchedule20(b);
    FirstSchedule40(b);
    FirstSchedule60(b);
    hide W, FirstWords0, FirstWords20, FirstWords40, FirstWords60;
    assert Rounds(b, H0, 0) == H0;
    hide Rounds;
    FirstRounds0(b, H0);
    FirstRounds20(b, H0);
    FirstRounds40(b, H0);
    FirstRounds60(b, H0);
  }

  // ---------------------------------------------------------------- the second block

  predicate SecondWords0(b: seq<word>)
    requires |b| == 16
  {
    && W(b, 0) == 0x00000000 && W(b, 1) == 0x00000000 && W(b, 2) == 0x00000000 && W(b, 3) == 0x00000000
    && W(b, 4) == 0x00000000 && W(b, 5) == 0x00000000 && W(b, 6) == 0x00000000 && W(b, 7) == 0x00000000
    && W(b, 8) == 0x00000000 && W(b, 9) == 0x00000000 && W(b, 10) == 0x00000000 && W(b, 11) == 0x00000000
    && W(b, 12) == 0x00000000 && W(b, 13) == 0x00000000 && W(b, 14) == 0x00000000 && W(b, 15) == 0x000001e0
    && W(b, 16) == 0x00000000 && W(b, 17) == 0x00000000 && W(b, 18) == 0x000003c0 && W(b, 19) == 0x00000000
  }

  predicate SecondWords20(b: seq<word>)
    requires |b| == 16
  {
    && W(b, 20) == 0x00000000 && W(b, 21) == 0x00000780 && W(b, 22) == 0x00000000 && W(b, 23) == 0x000003c0
    && W(b, 24) == 0x00000f00 && W(b, 25) == 0x00000000 && W(b, 26) == 0x00000000 && W(b, 27) == 0x00001e00
    && W(b, 28) == 0x00000000 && W(b, 29) == 0x00000cc0 && W(b, 30) == 0x00003c00 && W(b, 31) == 0x00000440
    && W(b, 32) == 0x00000000 && W(b, 33) == 0x00007800 && W(b, 34) == 0x00000f00 && W(b, 35) == 0x00003300
    && W(b, 36) == 0x0000f000 && W(b, 37) == 0x00000f00 && W(b, 38) == 0x00000000 && W(b, 39) == 0x0001ef00
  }

  predicate SecondWords40(b: seq<word>)
    requires |b| == 16
  {
    && W(b, 40) == 0x00000000 && W(b, 41) == 0x0000cc00 && W(b, 42) == 0x0003c000 && W(b, 43) == 0x00004380
    && W(b, 44) == 0x00000000 && W(b, 45) == 0x00078f00 && W(b, 46) == 0x0000ff00 && W(b, 47) == 0x00032680
    && W(b, 48) == 0x000f0000 && W(b, 49) == 0x0000f000 && W(b, 50) == 0x00003300 && W(b, 51) == 0x001eff00
    && W(b, 52) == 0x00000000 && W(b, 53) == 0x000cb800 && W(b, 54) == 0x003c0000 && W(b, 55) == 0x00040b00
    && W(b, 56) == 0x0000f000 && W(b, 57) == 0x0078ff00 && W(b, 58) == 0x000ff000 && W(b, 59) == 0x00338700
  }

  predicate SecondWords60(b: seq<word>)
    requires |b| == 16
  {
    && W(b, 60) == 0x00f00000 && W(b, 61) == 0x000fc300 && W(b, 62) == 0x0000f000 && W(b, 63) == 0x01efbb00
    && W(b, 64) == 0x00000000 && W(b, 65) == 0x00cc0000 && W(b, 66) == 0x03c0f000 && W(b, 67) == 0x00438000
    && W(b, 68) == 0x00000000 && W(b, 69) == 0x078f0000 && W(b, 70) == 0x00ff0000 && W(b, 71) == 0x03269e00
    && W(b, 72) == 0x0f000000 && W(b, 73) == 0x00f0f000 && W(b, 74) == 0x00333c00 && W(b, 75) == 0x1eff8800
    && W(b, 76) == 0x00000000 && W(b, 77) == 0x0cb88800 && W(b, 78) == 0x3c00f000 && W(b, 79) == 0x040a4a00
  }

  lemma SecondSchedule0(b: seq<word>)
    requires b == SECOND
    ensures SecondWords0(b)
  {
  }

  lemma SecondSchedule20(b: seq<word>)
    requires |b| == 16 && SecondWords0(b)
    ensures SecondWords20(b)
  {
  }

  lemma SecondSchedule40(b: seq<word>)
    requires |b| == 16 && SecondWords20(b)
    ensures SecondWords40(b)
  {
  }

  lemma SecondSchedule60(b: seq<word>)
    requires |b| == 16 && SecondWords40(b)
    ensures SecondWords60(b)
  {
  }

  lemma SecondRounds0(b: seq<word>, h: Vars)
    requires |b| == 16 && SecondWords0(b)
    requires Rounds(b, h, 0) == Vars(0x5bcf7727, 0x7327416a, 0xbe7bfbf9, 0x5a781878, 0x5e46a4e2)
    ensures Rounds(b, h, 20) == Vars(0x2a008b51, 0x2f193a09, 0x9c8663c1, 0x8eb5d103, 0x261b7c9a)
  {
    assert Rounds(b, h, 2) == Vars(0x186006b8, 0x6d335cde, 0xd6f3ddc9, 0x9cc9d05a, 0xbe7bfbf9);
    assert Rounds(b, h, 4) == Vars(0x15855523, 0xf9fb295d, 0x061801ae, 0x9b4cd737, 0xd6f3ddc9);
    assert Rounds(b, h, 6) == Vars(0x93a5efbb, 0xe43dd2f2, 0xc5615548, 0x7e7eca57, 0x061801ae);
    assert Rounds(b, h, 8) == Vars(0x25c018be, 0xb3bbcafe, 0xe4e97bee, 0xb90f74bc, 0xc5615548);
    assert Rounds(b, h, 10) == Vars(0x0b0814c3, 0x80946593, 0x8970062f, 0xaceef2bf, 0xe4e97bee);
    assert Rounds(b, h, 12) == Vars(0x250601ad, 0x4ce92417, 0xc2c20530, 0xe0251964, 0x8970062f);
    assert Rounds(b, h, 14) == Vars(0xad43f39e, 0x6576d2dc, 0x4941806b, 0xd33a4905, 0xc2c20530);
    assert Rounds(b, h, 16) == Vars(0x986df268, 0x990b7be7, 0xab50fce7, 0x195db4b7, 0x4941806b);
    assert Rounds(b, h, 18) == Vars(0x72198f06, 0x3ad7440e, 0x261b7c9a, 0xe642def9, 0xab50fce7);
  }

  lemma SecondRounds20(b: seq<word>, h: Vars)
    requires |b| == 16 && SecondWords20(b)
    requires Rounds(b, h, 20) == Vars(0x2a008b51, 0x2f193a09, 0x9c8663c1, 0x8eb5d103, 0x261b7c9a)
    ensures Rounds(b, h, 40) == Vars(0x6f698f1a, 0xc6ff0cd3, 0xde5ab7bc, 0x5f6f3cbb, 0x1da48a85)
  {
    assert Rounds(b, h, 22) == Vars(0x40fbcf98, 0x12315b2b, 0x4a8022d4, 0x4bc64e82, 0x9c8663c1);
    assert Rounds(b, h, 24) == Vars(0x53c73650, 0x3e5179e7, 0x103ef3e6, 0xc48c56ca, 0x4a8022d4);
    assert Rounds(b, h, 26) == Vars(0x646c677d, 0x1d24c44a, 0x14f1cd94, 0xcf945e79, 0x103ef3e6);
    assert Rounds(b, h, 28) == Vars(0x9327df6f, 0xd2e726da, 0x591b19df, 0x87493112, 0x14f1cd94);
    assert Rounds(b, h, 30) == Vars(0x243ee057, 0xf57cb53e, 0xe4c9f7db, 0xb4b9c9b6, 0x591b19df);
    assert Rounds(b, h, 32) == Vars(0x3cf6eb58, 0xf4ddd7b7, 0xc90fb815, 0xbd5f2d4f, 0xe4c9f7db);
    assert Rounds(b, h, 34) == Vars(0x96d9e59e, 0x730e9170, 0x0f3dbad6, 0xfd3775ed, 0xc90fb815);
    assert Rounds(b, h, 36) == Vars(0x76922a14, 0x942ac4d3, 0xa5b67967, 0x1cc3a45c, 0x0f3dbad6);
    assert Rounds(b, h, 38) == Vars(0x796adef3, 0x7dbcf2ed, 0x1da48a85, 0xe50ab134, 0xa5b67967);
  }

  lemma SecondRounds40(b: seq<word>, h: Vars)
    requires |b| == 16 && SecondWords40(b)
    requires Rounds(b, h, 40) == Vars(0x6f698f1a, 0xc6ff0cd3, 0xde5ab7bc, 0x5f6f3cbb, 0x1da48a85)
    ensures Rounds(b, h, 60) == Vars(0x56119f19, 0x085eb2fe, 0x484a25c5, 0xc140cfe8, 0x686da050)
  {
    assert Rounds(b, h, 42) == Vars(0xfc343a02, 0x78716769, 0x9bda63c6, 0xf1bfc334, 0xde5ab7bc);
    assert Rounds(b, h, 44) == Vars(0x1e934acf, 0xedfcd85b, 0xbf0d0e80, 0x5e1c59da, 0x9bda63c6);
    assert Rounds(b, h, 46) == Vars(0x3bd9203b, 0xfc7bd35f, 0xc7a4d2b3, 0xfb7f3616, 0xbf0d0e80);
    assert Rounds(b, h, 48) == Vars(0xa3ef857e, 0xc8cda3da, 0xcef6480e, 0xff1ef4d7, 0xc7a4d2b3);
    assert Rounds(b, h, 50) == Vars(0xa516f265, 0xa39f2041, 0xa8fbe15f, 0xb23368f6, 0xcef6480e);
    assert Rounds(b, h, 52) == Vars(0x5fe2a3db, 0xa3abe4f5, 0x6945bc99, 0x68e7c810, 0xa8fbe15f);
    assert Rounds(b, h, 54) == Vars(0x2c73bd78, 0x9e540637, 0xd7f8a8f6, 0x68eaf93d, 0x6945bc99);
    assert Rounds(b, h, 56) == Vars(0xa1b68141, 0x660dd0b1, 0x0b1cef5e, 0xe795018d, 0xd7f8a8f6);
    assert Rounds(b, h, 58) == Vars(0x21289715, 0x05033fa3, 0x686da050, 0x5983742c, 0x0b1cef5e);
  }

  lemma SecondRounds60(b: seq<word>, h: Vars)
    requires |b| == 16 && SecondWords60(b)
    requires Rounds(b, h, 60) == Vars(0x56119f19, 0x085eb2fe, 0x484a25c5, 0xc140cfe8, 0x686da050)
    ensures Rounds(b, h, 80) == Vars(0x57aad805, 0x4d3b0dac, 0xd27a4a0d, 0x74c040cd, 0x54782008)
  {
    assert Rounds(b, h, 62) == Vars(0x11132f8f, 0x77489e23, 0x558467c6, 0x8217acbf, 0x484a25c5);
    assert Rounds(b, h, 64) == Vars(0xa5937450, 0xd5ef1ed7, 0xc444cbe3, 0xddd22788, 0x558467c6);
    assert Rounds(b, h, 66) == Vars(0x17a22ef7, 0x9ecfa66c, 0x2964dd14, 0xf57bc7b5, 0xc444cbe3);
    assert Rounds(b, h, 68) == Vars(0x097a511c, 0xc97f1968, 0xc5e88bbd, 0x27b3e99b, 0x2964dd14);
    assert Rounds(b, h, 70) == Vars(0xbf3a7f95, 0x4e363db9, 0x025e9447, 0x325fc65a, 0xc5e88bbd);
    assert Rounds(b, h, 72) == Vars(0xc90888ca, 0xf6d1afee, 0x6fce9fe5, 0x538d8f6e, 0x025e9447);
    assert Rounds(b, h, 74) == Vars(0x26f99990, 0xc7652edb, 0xb2422232, 0xbdb46bfb, 0x6fce9fe5);
    assert Rounds(b, h, 76) == Vars(0x51e08021, 0xe22b36d1, 0x09be6664, 0xf1d94bb6, 0xb2422232);
    assert Rounds(b, h, 78) == Vars(0x49e92837, 0xd3010335, 0x54782008, 0x788acdb4, 0x09be6664);
  }

  lemma SecondBlock()
    ensures Compress(MIDDLE, SECOND) == LAST
  {
    var b := SECOND;
    SecondSchedule0(b);
    SecondSchedule20(b);
    SecondSchedule40(b);
    SecondSchedule60(b);
    hide W, SecondWords0, SecondWords20, SecondWords40, SecondWords60;
    assert Rounds(b, MIDDLE, 0) == MIDDLE;
    hide Rounds;
    SecondRounds0(b, MIDDLE);
    SecondRounds20(b, MIDDLE);
    SecondRounds40(b, MIDDLE);
    SecondRounds60(b, MIDDLE);
  }

  // ---------------------------------------------------------------- octets

  function Bits(c: Bytes.byte): bv8 { c as bv8 }

  /** Octets of a text as a word. */
  function WordAt(text: seq<Bytes.byte>, i: nat): word
    requires i + 4 <= |text|
  {
    WordOf(Bits(text[i]), Bits(text[i + 1]), Bits(text[i + 2]), Bits(text[i + 3]))
  }

  lemma WordOfText(text: seq<Bytes.byte>, i: nat)
    requires i + 4 <= |text|
    ensures var s := WebSocketHandshake.Bits(text); WordOf(s[i], s[i + 1], s[i + 2], s[i + 3]) == WordAt(text, i)
  {
    hide WordOf;
    BitsAt(text, i);
    BitsAt(text, i + 1);
    BitsAt(text, i + 2);
    BitsAt(text, i + 3);
    hide WebSocketHandshake.Bits, Bits;
  }

  lemma BitsAt(text: seq<Bytes.byte>, i: nat)
    requires i < |text|
    ensures WebSocketHandshake.Bits(text)[i] == Bits(text[i])
  {
  }

  lemma Key0Octets()
    ensures WordOf(Bits(100), Bits(71), Bits(104), Bits(108)) == 0x6447686c
    ensures WordOf(Bits(73), Bits(72), Bits(78), Bits(104)) == 0x49484e68
  {
  }

  lemma Key0()
    ensures WordAt(KEY, 0) == 0x6447686c
    ensures WordAt(KEY, 4) == 0x49484e68
  {
    Key0Octets();
    hide WordOf, Bits;
  }

  lemma Key2Octets()
    ensures WordOf(Bits(98), Bits(88), Bits(66), Bits(115)) == 0x62584273
    ensures WordOf(Bits(90), Bits(83), Bits(66), Bits(117)) == 0x5a534275
  {
  }

  lemma Key2()
    ensures WordAt(KEY, 8) == 0x62584273
    ensures WordAt(KEY, 12) == 0x5a534275
  {
    Key2Octets();
    hide WordOf, Bits;
  }

  lemma Key4Octets()
    ensures WordOf(Bits(98), Bits(50), Bits(53), Bits(106)) == 0x6232356a
    ensures WordOf(Bits(90), Bits(81), Bits(61), Bits(61)) == 0x5a513d3d
  {
  }

  lemma Key4()
    ensures WordAt(KEY, 16) == 0x6232356a
    ensures WordAt(KEY, 20) == 0x5a513d3d
  {
    Key4Octets();
    hide WordOf, Bits;
  }

  lemma Guid0Octets()
    ensures WordOf(Bits(50), Bits(53), Bits(56), Bits(69)) == 0x32353845
    ensures WordOf(Bits(65), Bits(70), Bits(65), Bits(53)) == 0x41464135
  {
  }

  lemma Guid0()
    ensures WordAt(WebSocketHandshake.GUID, 0) == 0x32353845
    ensures WordAt(WebSocketHandshake.GUID, 4) == 0x41464135
  {
    Guid0Octets();
    hide WordOf, Bits;
  }

  lemma Guid2Octets()
    ensures WordOf(Bits(45), Bits(69), Bits(57), Bits(49)) == 0x2d453931
    ensures WordOf(Bits(52), Bits(45), Bits(52), Bits(55)) == 0x342d3437
  {
  }

  lemma Guid2()
    ensures WordAt(WebSocketHandshake.GUID, 8) == 0x2d453931
    ensures WordAt(WebSocketHandshake.GUID, 12) == 0x342d3437
  {
    Guid2Octets();
    hide WordOf, Bits;
  }

  lemma Guid4Octets()
    ensures WordOf(Bits(68), Bits(65), Bits(45), Bits(57)) == 0x44412d39
    ensures WordOf(Bits(53), Bits(67), Bits(65), Bits(45)) == 0x3543412d
  {
  }

  lemma Guid4()
    ensures WordAt(WebSocketHandshake.GUID, 16) == 0x44412d39
    ensures WordAt(WebSocketHandshake.GUID, 20) == 0x3543412d
  {
    Guid4Octets();
    hide WordOf, Bits;
  }

  lemma Guid6Octets()
    ensures WordOf(Bits(67), Bits(53), Bits(65), Bits(66)) == 0x43354142
    ensures WordOf(Bits(48), Bits(68), Bits(67), Bits(56)) == 0x30444338
  {
  }

  lemma Guid6()
    ensures WordAt(WebSocketHandshake.GUID, 24) == 0x43354142
    ensures WordAt(WebSocketHandshake.GUID, 28) == 0x30444338
  {
    Guid6Octets();
    hide WordOf, Bits;
  }

  lemma Guid8Octets()
    ensures WordOf(Bits(53), Bits(66), Bits(49), Bits(49)) == 0x35423131
  {
  }

  lemma Guid8()
    ensures WordAt(WebSocketHandshake.GUID, 32) == 0x35423131
  {
    Guid8Octets();
    hide WordOf, Bits;
  }

  lemma WordAtKey(i: nat)
    requires i + 4 <= |KEY|
    ensures WordAt(KEY + WebSocketHandshake.GUID, i) == WordAt(KEY, i)
  {
    hide WordOf, Bits;
  }

  lemma WordAtGuid(i: nat)
    requires i + 4 <= |WebSocketHandshake.GUID|
    ensures WordAt(KEY + WebSocketHandshake.GUID, 24 + i) == WordAt(WebSocketHandshake.GUID, i)
  {
    hide WordOf, Bits, WebSocketHandshake.GUID;
  }

  function Text(): (r: seq<Bytes.byte>)
    ensures |r| == 60
  {
    KEY + WebSocketHandshake.GUID
  }

  lemma KeyText()
    ensures WordAt(Text(), 0) == 0x6447686c && WordAt(Text(), 4) == 0x49484e68 && WordAt(Text(), 8) == 0x62584273
    ensures WordAt(Text(), 12) == 0x5a534275 && WordAt(Text(), 16) == 0x6232356a && WordAt(Text(), 20) == 0x5a513d3d
  {
    hide WordOf, Bits;
    Key0();
    Key2();
    Key4();
    hide WordAt, WebSocketHandshake.GUID;
    WordAtKey(0);
    WordAtKey(4);
    WordAtKey(8);
    WordAtKey(12);
    WordAtKey(16);
    WordAtKey(20);
  }

  lemma GuidText()
    ensures WordAt(Text(), 24) == 0x32353845 && WordAt(Text(), 28) == 0x41464135 && WordAt(Text(), 32) == 0x2d453931
    ensures WordAt(Text(), 36) == 0x342d3437 && WordAt(Text(), 40) == 0x44412d39 && WordAt(Text(), 44) == 0x3543412d
    ensures WordAt(Text(), 48) == 0x43354142 && WordAt(Text(), 52) == 0x30444338 && WordAt(Text(), 56) == 0x35423131
  {
    hide WordOf, Bits;
    Guid0();
    Guid2();
    Guid4();
    Guid6();
    Guid8();
    assert |WebSocketHandshake.GUID| == 36;
    hide WordAt, WebSocketHandshake.GUID;
    WordAtGuid(0);
    WordAtGuid(4);
    WordAtGuid(8);
    WordAtGuid(12);
    WordAtGuid(16);
    WordAtGuid(20);
    WordAtGuid(24);
    WordAtGuid(28);
    WordAtGuid(32);
  }

  // ---------------------------------------------------------------- the padded message

  /** What is behind the text in its two blocks. */
  function Tail(): (r: seq<bv8>)
    ensures |r| == 68
  {
    [0x80] + Zeros(65) + [1, 0xE0]
  }

  lemma Padded()
    ensures Pad(WebSocketHandshake.Bits(Text())) == WebSocketHandshake.Bits(Text()) + Tail()
  {
    hide WebSocketHandshake.Bits;
    var s := WebSocketHandshake.Bits(Text());
    assert PadLength(60) == 59;
    LengthField();
    assert Zeros(59) + ([0, 0, 0, 0, 0, 0] + [1, 0xE0]) == Zeros(65) + [1, 0xE0];
  }

  lemma LengthField()
    ensures BigEndian64(480) == [0, 0, 0, 0, 0, 0] + [1, 0xE0]
  {
    OctetValues();
    hide Octet;
  }

  lemma OctetValues()
    ensures Octet(0) == 0 && Octet(1) == 1 && Octet(480) == 0xE0
  {
  }

  lemma InText(p: seq<bv8>, i: nat)
    requires p == WebSocketHandshake.Bits(Text()) + Tail() && i + 4 <= 60
    ensures WordOf(p[i], p[i + 1], p[i + 2], p[i + 3]) == WordAt(Text(), i)
  {
    WordOfText(Text(), i);
    hide WordOf, WordAt, WebSocketHandshake.Bits, Text, Tail;
  }

  lemma InTail(p: seq<bv8>, i: nat)
    requires p == WebSocketHandshake.Bits(Text()) + Tail() && 60 <= i <= 124 && i % 4 == 0
    ensures WordOf(p[i], p[i + 1], p[i + 2], p[i + 3]) == if i == 60 then 0x80000000 else if i == 124 then 480 else 0
  {
    hide WebSocketHandshake.Bits, Text;
    var t := Tail();
    assert WordOf(0x80, 0, 0, 0) == 0x80000000 && WordOf(0, 0, 1, 0xE0) == 480 && WordOf(0, 0, 0, 0) == 0;
    hide WordOf;
    assert p[i] == t[i - 60] && p[i + 1] == t[i - 59] && p[i + 2] == t[i - 58] && p[i + 3] == t[i - 57];
  }

  lemma Sixteen(b: seq<word>)
    requires |b| == 16
    ensures b == [b[0], b[1], b[2], b[3], b[4], b[5], b[6], b[7]]
                 + [b[8], b[9], b[10], b[11], b[12], b[13], b[14], b[15]]
  {
  }

  lemma FirstIs(p: seq<bv8>)
    requires p == WebSocketHandshake.Bits(Text()) + Tail()
    ensures WordsOf(p[..64]) == FIRST
  {
    KeyText();
    GuidText();
    hide WordAt, WebSocketHandshake.Bits, Text, Tail, WordsOf;
    InFirst(p, 0, 0x6447686c);
    InFirst(p, 1, 0x49484e68);
    InFirst(p, 2, 0x62584273);
    InFirst(p, 3, 0x5a534275);
    InFirst(p, 4, 0x6232356a);
    InFirst(p, 5, 0x5a513d3d);
    InFirst(p, 6, 0x32353845);
    InFirst(p, 7, 0x41464135);
    InFirst(p, 8, 0x2d453931);
    InFirst(p, 9, 0x342d3437);
    InFirst(p, 10, 0x44412d39);
    InFirst(p, 11, 0x3543412d);
    InFirst(p, 12, 0x43354142);
    InFirst(p, 13, 0x30444338);
    InFirst(p, 14, 0x35423131);
    LastOfFirst(p);
    Sixteen(WordsOf(p[..64]));
  }

  lemma InFirst(p: seq<bv8>, k: nat, w: word)
    requires p == WebSocketHandshake.Bits(Text()) + Tail() && k < 15 && WordAt(Text(), 4 * k) == w
    ensures WordsOf(p[..64])[k] == w
  {
    hide WordOf, WordAt, WebSocketHandshake.Bits, Text, Tail, WordsOf;
    InText(p, 4 * k);
    InBlock(p, k);
  }

  lemma InBlock(p: seq<bv8>, k: nat)
    requires |p| == 128 && k < 16
    ensures WordsOf(p[..64])[k] == WordOf(p[4 * k], p[4 * k + 1], p[4 * k + 2], p[4 * k + 3])
  {
    hide WordOf;
    var b := p[..64];
    assert b[4 * k] == p[4 * k] && b[4 * k + 1] == p[4 * k + 1] && b[4 * k + 2] == p[4 * k + 2];
    assert b[4 * k + 3] == p[4 * k + 3];
  }

  lemma LastOfFirst(p: seq<bv8>)
    requires p == WebSocketHandshake.Bits(Text()) + Tail()
    ensures WordsOf(p[..64])[15] == 0x80000000
  {
    hide WordOf, WebSocketHandshake.Bits, Text, Tail, WordsOf;
    InTail(p, 60);
    InBlock(p, 15);
  }

  lemma SecondIs(p: seq<bv8>)
    requires p == WebSocketHandshake.Bits(Text()) + Tail()
    ensures WordsOf(p[64..]) == SECOND
  {
    var b := WordsOf(p[64..]);
    hide WordOf, WebSocketHandshake.Bits, Text, Tail;
    forall i | 0 <= i < 16
      ensures b[i] == if i == 15 then 480 else 0
    {
      InTail(p, 64 + 4 * i);
    }
  }

  lemma Hashed()
    ensures Sha1(WebSocketHandshake.Bits(Text())) == Digest(LAST)
  {
    var p := WebSocketHandshake.Bits(Text()) + Tail();
    Padded();
    FirstIs(p);
    SecondIs(p);
    FirstBlock();
    SecondBlock();
    hide WebSocketHandshake.Bits, Text, Tail, Compress, WordsOf, Digest, Pad;
    TwoBlocks(p);
  }

  lemma TwoBlocks(p: seq<bv8>)
    requires |p| == 128
    ensures HashBlocks(p) == Compress(Compress(H0, WordsOf(p[..64])), WordsOf(p[64..]))
  {
    hide Compress, WordsOf;
    assert p[..64][..0] == [] && p[..64][0..] == p[..64];
    assert HashBlocks([]) == H0;
    assert HashBlocks(p[..64]) == Compress(H0, WordsOf(p[..64]));
  }

  // ---------------------------------------------------------------- the answer

  const HASH_START: seq<bv8> := [0xb3, 0x7a, 0x4f, 0x2c, 0xc0, 0x62, 0x4f, 0x16, 0x90]
  const HASH_END: seq<bv8> := [0xf6, 0x46, 0x06, 0xcf, 0x38, 0x59, 0x45, 0xb2, 0xbe, 0xc4, 0xea]

  lemma DigestOctets()
    ensures Digest(LAST) == HASH_START + HASH_END
  {
  }

  lemma DigestNumbers()
    ensures WebSocketHandshake.Octets(Digest(LAST)) ==
      [179, 122, 79, 44, 192, 98, 79, 22, 144] + [246, 70, 6, 207, 56, 89, 69, 178, 190, 196, 234]
  {
    DigestOctets();
    OctetsTwice(HASH_START, HASH_END);
    StartNumbers();
    EndNumbers();
    hide Digest, HASH_START, HASH_END, WebSocketHandshake.Octets;
  }

  lemma OctetsTwice(a: seq<bv8>, b: seq<bv8>)
    ensures WebSocketHandshake.Octets(a + b) == WebSocketHandshake.Octets(a) + WebSocketHandshake.Octets(b)
  {
    hide WebSocketHandshake.Octet;
  }

  lemma StartNumbers()
    ensures WebSocketHandshake.Octets(HASH_START) == [179, 122, 79, 44, 192, 98, 79, 22, 144]
  {
  }

  lemma EndNumbers()
    ensures WebSocketHandshake.Octets(HASH_END) == [246, 70, 6, 207, 56, 89, 69, 178, 190, 196, 234]
  {
  }

  lemma Group(a: Bytes.byte, b: Bytes.byte, c: Bytes.byte, rest: seq<Bytes.byte>, text: seq<Bytes.byte>)
    requires text == [Base64Spec.Letter(Base64Spec.First(a)), Base64Spec.Letter(Base64Spec.Second(a, b)),
                      Base64Spec.Letter(Base64Spec.Third(b, c)), Base64Spec.Letter(Base64Spec.Fourth(c))]
    ensures Base64Spec.Encoding([a, b, c] + rest) == text + Base64Spec.Encoding(rest)
  {
    hide Base64Spec.Letter, Base64Spec.First, Base64Spec.Second, Base64Spec.Third, Base64Spec.Fourth;
    assert ([a, b, c] + rest)[3..] == rest;
  }

  lemma Nested<T>(x: seq<T>, y: seq<T>, z: seq<T>, rest: seq<T>)
    ensures x + (y + (z + rest)) == x + y + z + rest
  {
  }

  lemma FirstGroups(rest: seq<Bytes.byte>)
    ensures Base64Spec.Encoding([179, 122, 79] + [44, 192, 98] + [79, 22, 144] + rest) ==
      [115, 51, 112, 80] + [76, 77, 66, 105] + [84, 120, 97, 81] + Base64Spec.Encoding(rest)
  {
    hide Base64Spec.Encoding;
    Group(79, 22, 144, rest, [84, 120, 97, 81]);
    Group(44, 192, 98, [79, 22, 144] + rest, [76, 77, 66, 105]);
    Group(179, 122, 79, [44, 192, 98] + ([79, 22, 144] + rest), [115, 51, 112, 80]);
    Nested([179, 122, 79], [44, 192, 98], [79, 22, 144], rest);
    Nested([115, 51, 112, 80], [76, 77, 66, 105], [84, 120, 97, 81], Base64Spec.Encoding(rest));
  }

  lemma LaterGroups(rest: seq<Bytes.byte>)
    ensures Base64Spec.Encoding([246, 70, 6] + [207, 56, 89] + [69, 178, 190] + rest) ==
      [57, 107, 89, 71] + [122, 122, 104, 90] + [82, 98, 75, 43] + Base64Spec.Encoding(rest)
  {
    hide Base64Spec.Encoding;
    Group(69, 178, 190, rest, [82, 98, 75, 43]);
    Group(207, 56, 89, [69, 178, 190] + rest, [122, 122, 104, 90]);
    Group(246, 70, 6, [207, 56, 89] + ([69, 178, 190] + rest), [57, 107, 89, 71]);
    Nested([246, 70, 6], [207, 56, 89], [69, 178, 190], rest);
    Nested([57, 107, 89, 71], [122, 122, 104, 90], [82, 98, 75, 43], Base64Spec.Encoding(rest));
  }

  lemma LastGroup()
    ensures Base64Spec.Encoding([196, 234]) == [120, 79, 111, 61]
  {
  }

  lemma Encoded()
    ensures Base64Spec.Encoding([179, 122, 79, 44, 192, 98, 79, 22, 144]
                                + [246, 70, 6, 207, 56, 89, 69, 178, 190, 196, 234]) ==
      [115, 51, 112, 80, 76, 77, 66, 105, 84, 120, 97, 81]
      + ([57, 107, 89, 71, 122, 122, 104, 90, 82, 98, 75, 43] + [120, 79, 111, 61])
  {
    FirstGroups([246, 70, 6, 207, 56, 89, 69, 178, 190, 196, 234]);
    LaterGroups([196, 234]);
    LastGroup();
    hide Base64Spec.Encoding;
    HashRow();
    TextRow(115, 51, 112, 80, 76, 77, 66, 105, 84, 120, 97, 81);
    TextRow(57, 107, 89, 71, 122, 122, 104, 90, 82, 98, 75, 43);
  }

  lemma HashRow()
    ensures [179, 122, 79] + [44, 192, 98] + [79, 22, 144] == [179, 122, 79, 44, 192, 98, 79, 22, 144]
    ensures [246, 70, 6] + [207, 56, 89] + [69, 178, 190] + [196, 234] ==
      [246, 70, 6, 207, 56, 89, 69, 178, 190, 196, 234]
  {
  }

  lemma TextRow<T>(a: T, b: T, c: T, d: T, e: T, f: T, g: T, h: T, i: T, j: T, k: T, l: T)
    ensures [a, b, c, d] + [e, f, g, h] + [i, j, k, l] == [a, b, c, d, e, f, g, h, i, j, k, l]
  {
  }

  /** "s3pPLMBiTxaQ9kYGzzhZRbK+xOo=" */
  lemma Answer()
    ensures WebSocketHandshake.AcceptValue(KEY) ==
      [115, 51, 112, 80, 76, 77, 66, 105, 84, 120, 97, 81]
      + ([57, 107, 89, 71, 122, 122, 104, 90, 82, 98, 75, 43] + [120, 79, 111, 61])
  {
    DigestNumbers();
    Encoded();
    hide Digest, WebSocketHandshake.Octets, Base64Spec.Encoding;
    Hashed();
    hide Sha1, WebSocketHandshake.Bits;
  }
}
