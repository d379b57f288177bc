/** Known answers of section A.5 of RFC 1321: the digests of the empty message and of "abc". Every word of
    the start, every rotation and every entry of the sine table takes part in them. */
module Md5Answers {
  import opened Bytes
  import opened Md5

  /** Section 3.3: the initial words, low-order byte first. */
  lemma InitialWords()
    ensures Split(INITIAL.a) == [0x01, 0x23, 0x45, 0x67]
    ensures Split(INITIAL.b) == [0x89, 0xAB, 0xCD, 0xEF]
    ensures Split(INITIAL.c) == [0xFE, 0xDC, 0xBA, 0x98]
    ensures Split(INITIAL.d) == [0x76, 0x54, 0x32, 0x10]
  {
  }

  // ---------------------------------------------------------------- the printed digest

  lemma {:induction false} HexConcat(a: seq<bv8>, b: seq<bv8>)
    ensures HexText(a + b) == HexText(a) + HexText(b)
  {
    hide HexPair;
    if |b| == 0 {
      assert a + b == a;
    } else {
      var n := |b| - 1;
      assert (a + b)[..|a + b| - 1] == a + b[..n];
      HexConcat(a, b[..n]);
      assert HexText(a) + HexText(b[..n]) + HexPair(b[n]) == HexText(a) + (HexText(b[..n]) + HexPair(b[n]));
    }
  }

  lemma HexOfOne(b: bv8)
    ensures HexText([b]) == HexPair(b)
  {
    hide HexPair;
    assert [b][..0] == [];
  }

  lemma HexOfFour(a: bv8, b: bv8, c: bv8, d: bv8)
    ensures HexText([a, b, c, d]) == HexPair(a) + HexPair(b) + HexPair(c) + HexPair(d)
  {
    hide HexPair, HexText;
    HexOfOne(a);
    HexOfOne(b);
    HexOfOne(c);
    HexOfOne(d);
    HexConcat([a], [b]);
    HexConcat([a] + [b], [c]);
    HexConcat([a] + [b] + [c], [d]);
    assert [a, b, c, d] == [a] + [b] + [c] + [d];
  }

  lemma TextOfWords(q: Quad)
    ensures HexText(Output(q)) == HexText(Split(q.a)) + HexText(Split(q.b)) + HexText(Split(q.c)) + HexText(Split(q.d))
  {
    hide Split, HexText;
    HexConcat(Split(q.a) + Split(q.b) + Split(q.c), Split(q.d));
    HexConcat(Split(q.a) + Split(q.b), Split(q.c));
    HexConcat(Split(q.a), Split(q.b));
  }

  /** The text of a word, from its four bytes. */
  lemma TextOfWord(x: bv32, a: bv8, b: bv8, c: bv8, d: bv8, t: string)
    requires Split(x) == [a, b, c, d] && |t| == 8 && forall i :: 0 <= i < 8 ==> t[i] < 128 as char
    requires HexPair(a) == Ascii(t[..2]) && HexPair(b) == Ascii(t[2..4])
    requires HexPair(c) == Ascii(t[4..6]) && HexPair(d) == Ascii(t[6..])
    ensures HexText(Split(x)) == Ascii(t)
  {
    hide Split, HexPair, HexText;
    HexOfFour(a, b, c, d);
    assert Ascii(t[..2]) + Ascii(t[2..4]) + Ascii(t[4..6]) + Ascii(t[6..]) == Ascii(t);
  }

  // ---------------------------------------------------------------- the empty message

  ghost predicate EmptyWords(w: seq<bv32>) {
    && |w| == 16
    && w[0] == 0x00000080 && w[1] == 0 && w[2] == 0 && w[3] == 0
    && w[4] == 0 && w[5] == 0 && w[6] == 0 && w[7] == 0
    && w[8] == 0 && w[9] == 0 && w[10] == 0 && w[11] == 0
    && w[12] == 0 && w[13] == 0 && w[14] == 0 && w[15] == 0
  }

  lemma EmptyOperations8(w: seq<bv32>)
    requires EmptyWords(w) && Operations(INITIAL, w, 0) == Quad(0x67452301, 0xEFCDAB89, 0x98BADCFE, 0x10325476)
    ensures Operations(INITIAL, w, 8) == Quad(0x32033344, 0x9BC13CE9, 0xF5B158DB, 0x2F35D494)
  {
    assert Operations(INITIAL, w, 1) == Quad(0x10325476, 0xA5202774, 0xEFCDAB89, 0x98BADCFE);
    assert Operations(INITIAL, w, 2) == Quad(0x98BADCFE, 0xF59592DD, 0xA5202774, 0xEFCDAB89);
    assert Operations(INITIAL, w, 3) == Quad(0xEFCDAB89, 0xE7F06B23, 0xF59592DD, 0xA5202774);
    assert Operations(INITIAL, w, 4) == Quad(0xA5202774, 0x1B163203, 0xE7F06B23, 0xF59592DD);
    assert Operations(INITIAL, w, 5) == Quad(0xF59592DD, 0x32033344, 0x1B163203, 0xE7F06B23);
    assert Operations(INITIAL, w, 6) == Quad(0xE7F06B23, 0x2F35D494, 0x32033344, 0x1B163203);
    assert Operations(INITIAL, w, 7) == Quad(0x1B163203, 0xF5B158DB, 0x2F35D494, 0x32033344);
  }

  lemma EmptyOperations16(w: seq<bv32>)
    requires EmptyWords(w) && Operations(INITIAL, w, 8) == Quad(0x32033344, 0x9BC13CE9, 0xF5B158DB, 0x2F35D494)
    ensures Operations(INITIAL, w, 16) == Quad(0xF56C7CF1, 0xD6819C6A, 0x5AA53F75, 0x374943A7)
  {
    assert Operations(INITIAL, w, 9) == Quad(0x2F35D494, 0x3893B991, 0x9BC13CE9, 0xF5B158DB);
    assert Operations(INITIAL, w, 10) == Quad(0xF5B158DB, 0xFCE4A312, 0x3893B991, 0x9BC13CE9);
    assert Operations(INITIAL, w, 11) == Quad(0x9BC13CE9, 0xE1EF0576, 0xFCE4A312, 0x3893B991);
    assert Operations(INITIAL, w, 12) == Quad(0x3893B991, 0x70768A29, 0xE1EF0576, 0xFCE4A312);
    assert Operations(INITIAL, w, 13) == Quad(0xFCE4A312, 0xF56C7CF1, 0x70768A29, 0xE1EF0576);
    assert Operations(INITIAL, w, 14) == Quad(0xE1EF0576, 0x374943A7, 0xF56C7CF1, 0x70768A29);
    assert Operations(INITIAL, w, 15) == Quad(0x70768A29, 0x5AA53F75, 0x374943A7, 0xF56C7CF1);
  }

  lemma EmptyOperations24(w: seq<bv32>)
    requires EmptyWords(w) && Operations(INITIAL, w, 16) == Quad(0xF56C7CF1, 0xD6819C6A, 0x5AA53F75, 0x374943A7)
    ensures Operations(INITIAL, w, 24) == Quad(0x3D1E3E6C, 0xE422531A, 0xEB41643E, 0x68B7B3E3)
  {
    assert Operations(INITIAL, w, 17) == Quad(0x374943A7, 0x1C7D7513, 0xD6819C6A, 0x5AA53F75);
    assert Operations(INITIAL, w, 18) == Quad(0x5AA53F75, 0x7BD57A3A, 0x1C7D7513, 0xD6819C6A);
    assert Operations(INITIAL, w, 19) == Quad(0xD6819C6A, 0xC095F13A, 0x7BD57A3A, 0x1C7D7513);
    assert Operations(INITIAL, w, 20) == Quad(0x1C7D7513, 0xBD782E17, 0xC095F13A, 0x7BD57A3A);
    assert Operations(INITIAL, w, 21) == Quad(0x7BD57A3A, 0x3D1E3E6C, 0xBD782E17, 0xC095F13A);
    assert Operations(INITIAL, w, 22) == Quad(0xC095F13A, 0x68B7B3E3, 0x3D1E3E6C, 0xBD782E17);
    assert Operations(INITIAL, w, 23) == Quad(0xBD782E17, 0xEB41643E, 0x68B7B3E3, 0x3D1E3E6C);
  }

  lemma EmptyOperations32(w: seq<bv32>)
    requires EmptyWords(w) && Operations(INITIAL, w, 24) == Quad(0x3D1E3E6C, 0xE422531A, 0xEB41643E, 0x68B7B3E3)
    ensures Operations(INITIAL, w, 32) == Quad(0x13707036, 0xA2205F1F, 0x1C31C384, 0xAE7813DB)
  {
    assert Operations(INITIAL, w, 25) == Quad(0x68B7B3E3, 0x306EC122, 0xE422531A, 0xEB41643E);
    assert Operations(INITIAL, w, 26) == Quad(0xEB41643E, 0xD28C77C2, 0x306EC122, 0xE422531A);
    assert Operations(INITIAL, w, 27) == Quad(0xE422531A, 0xA3C663DA, 0xD28C77C2, 0x306EC122);
    assert Operations(INITIAL, w, 28) == Quad(0x306EC122, 0xA0572807, 0xA3C663DA, 0xD28C77C2);
    assert Operations(INITIAL, w, 29) == Quad(0xD28C77C2, 0x13707036, 0xA0572807, 0xA3C663DA);
    assert Operations(INITIAL, w, 30) == Quad(0xA3C663DA, 0xAE7813DB, 0x13707036, 0xA0572807);
    assert Operations(INITIAL, w, 31) == Quad(0xA0572807, 0x1C31C384, 0xAE7813DB, 0x13707036);
  }

  lemma EmptyOperations40(w: seq<bv32>)
    requires EmptyWords(w) && Operations(INITIAL, w, 32) == Quad(0x13707036, 0xA2205F1F, 0x1C31C384, 0xAE7813DB)
    ensures Operations(INITIAL, w, 40) == Quad(0x5F7A9B2E, 0xC5DC8C15, 0x91CA4CB7, 0xABC34E16)
  {
    assert Operations(INITIAL, w, 33) == Quad(0xAE7813DB, 0xDF63EAA1, 0xA2205F1F, 0x1C31C384);
    assert Operations(INITIAL, w, 34) == Quad(0x1C31C384, 0xC3689F5B, 0xDF63EAA1, 0xA2205F1F);
    assert Operations(INITIAL, w, 35) == Quad(0xA2205F1F, 0x12F3E755, 0xC3689F5B, 0xDF63EAA1);
    assert Operations(INITIAL, w, 36) == Quad(0xDF63EAA1, 0x004B6669, 0x12F3E755, 0xC3689F5B);
    assert Operations(INITIAL, w, 37) == Quad(0xC3689F5B, 0x5F7A9B2E, 0x004B6669, 0x12F3E755);
    assert Operations(INITIAL, w, 38) == Quad(0x12F3E755, 0xABC34E16, 0x5F7A9B2E, 0x004B6669);
    assert Operations(INITIAL, w, 39) == Quad(0x004B6669, 0x91CA4CB7, 0xABC34E16, 0x5F7A9B2E);
  }

  lemma EmptyOperations48(w: seq<bv32>)
    requires EmptyWords(w) && Operations(INITIAL, w, 40) == Quad(0x5F7A9B2E, 0xC5DC8C15, 0x91CA4CB7, 0xABC34E16)
    ensures Operations(INITIAL, w, 48) == Quad(0x3F55EDFD, 0xCA7D2DBD, 0x68D84EA2, 0x22A31F54)
  {
    assert Operations(INITIAL, w, 41) == Quad(0xABC34E16, 0x4497169D, 0xC5DC8C15, 0x91CA4CB7);
    assert Operations(INITIAL, w, 42) == Quad(0x91CA4CB7, 0x76FD93D4, 0x4497169D, 0xC5DC8C15);
    assert Operations(INITIAL, w, 43) == Quad(0xC5DC8C15, 0xFD95F243, 0x76FD93D4, 0x4497169D);
    assert Operations(INITIAL, w, 44) == Quad(0x4497169D, 0x0FE32453, 0xFD95F243, 0x76FD93D4);
    assert Operations(INITIAL, w, 45) == Quad(0x76FD93D4, 0x3F55EDFD, 0x0FE32453, 0xFD95F243);
    assert Operations(INITIAL, w, 46) == Quad(0xFD95F243, 0x22A31F54, 0x3F55EDFD, 0x0FE32453);
    assert Operations(INITIAL, w, 47) == Quad(0x0FE32453, 0x68D84EA2, 0x22A31F54, 0x3F55EDFD);
  }

  lemma EmptyOperations56(w: seq<bv32>)
    requires EmptyWords(w) && Operations(INITIAL, w, 48) == Quad(0x3F55EDFD, 0xCA7D2DBD, 0x68D84EA2, 0x22A31F54)
    ensures Operations(INITIAL, w, 56) == Quad(0x5625A114, 0x1E77FA61, 0x392AD0D0, 0x3450F42B)
  {
    assert Operations(INITIAL, w, 49) == Quad(0x22A31F54, 0x93AA2577, 0xCA7D2DBD, 0x68D84EA2);
    assert Operations(INITIAL, w, 50) == Quad(0x68D84EA2, 0x1688DC85, 0x93AA2577, 0xCA7D2DBD);
    assert Operations(INITIAL, w, 51) == Quad(0xCA7D2DBD, 0xCD85B8CB, 0x1688DC85, 0x93AA2577);
    assert Operations(INITIAL, w, 52) == Quad(0x93AA2577, 0x561E0689, 0xCD85B8CB, 0x1688DC85);
    assert Operations(INITIAL, w, 53) == Quad(0x1688DC85, 0x5625A114, 0x561E0689, 0xCD85B8CB);
    assert Operations(INITIAL, w, 54) == Quad(0xCD85B8CB, 0x3450F42B, 0x5625A114, 0x561E0689);
    assert Operations(INITIAL, w, 55) == Quad(0x561E0689, 0x392AD0D0, 0x3450F42B, 0x5625A114);
  }

  lemma EmptyOperations64(w: seq<bv32>)
    requires EmptyWords(w) && Operations(INITIAL, w, 56) == Quad(0x5625A114, 0x1E77FA61, 0x392AD0D0, 0x3450F42B)
    ensures Operations(INITIAL, w, 64) == Quad(0x7246FAD3, 0x14E45506, 0xFF4EA3EB, 0x6E10A476)
  {
    assert Operations(INITIAL, w, 57) == Quad(0x3450F42B, 0x474A9C8C, 0x1E77FA61, 0x392AD0D0);
    assert Operations(INITIAL, w, 58) == Quad(0x392AD0D0, 0xDFCE00BC, 0x474A9C8C, 0x1E77FA61);
    assert Operations(INITIAL, w, 59) == Quad(0x1E77FA61, 0x36594B14, 0xDFCE00BC, 0x474A9C8C);
    assert Operations(INITIAL, w, 60) == Quad(0x474A9C8C, 0x30130182, 0x36594B14, 0xDFCE00BC);
    assert Operations(INITIAL, w, 61) == Quad(0xDFCE00BC, 0x7246FAD3, 0x30130182, 0x36594B14);
    assert Operations(INITIAL, w, 62) == Quad(0x36594B14, 0x6E10A476, 0x7246FAD3, 0x30130182);
    assert Operations(INITIAL, w, 63) == Quad(0x30130182, 0xFF4EA3EB, 0x6E10A476, 0x7246FAD3);
  }

  lemma EmptyOperations(w: seq<bv32>)
    requires EmptyWords(w)
    ensures Operations(INITIAL, w, 64) == Quad(0x7246FAD3, 0x14E45506, 0xFF4EA3EB, 0x6E10A476)
  {
    hide Operation;
    EmptyOperations8(w);
    EmptyOperations16(w);
    EmptyOperations24(w);
    EmptyOperations32(w);
    EmptyOperations40(w);
    EmptyOperations48(w);
    EmptyOperations56(w);
    EmptyOperations64(w);
  }

  lemma EmptyTextA(x: bv32)
    requires x == 0xD98C1DD4
    ensures HexText(Split(x)) == Ascii("d41d8cd9")
  {
    TextOfWord(x, 0xD4, 0x1D, 0x8C, 0xD9, "d41d8cd9");
  }

  lemma EmptyTextB(x: bv32)
    requires x == 0x04B2008F
    ensures HexText(Split(x)) == Ascii("8f00b204")
  {
    TextOfWord(x, 0x8F, 0x00, 0xB2, 0x04, "8f00b204");
  }

  lemma EmptyTextC(x: bv32)
    requires x == 0x980980E9
    ensures HexText(Split(x)) == Ascii("e9800998")
  {
    TextOfWord(x, 0xE9, 0x80, 0x09, 0x98, "e9800998");
  }

  lemma EmptyTextD(x: bv32)
    requires x == 0x7E42F8EC
    ensures HexText(Split(x)) == Ascii("ecf8427e")
  {
    TextOfWord(x, 0xEC, 0xF8, 0x42, 0x7E, "ecf8427e");
  }

  lemma EmptyText(q: Quad)
    requires q == Quad(0xD98C1DD4, 0x04B2008F, 0x980980E9, 0x7E42F8EC)
    ensures HexText(Output(q)) == Ascii("d41d8cd98f00b204e9800998ecf8427e")
  {
    hide HexText, Split, Output;
    TextOfWords(q);
    EmptyTextA(q.a);
    EmptyTextB(q.b);
    EmptyTextC(q.c);
    EmptyTextD(q.d);
    assert "d41d8cd9" + "8f00b204" + "e9800998" + "ecf8427e" == "d41d8cd98f00b204e9800998ecf8427e";
  }

  // ---------------------------------------------------------------- "abc"

  ghost predicate AbcWords(w: seq<bv32>) {
    && |w| == 16
    && w[0] == 0x80636261 && w[1] == 0 && w[2] == 0 && w[3] == 0
    && w[4] == 0 && w[5] == 0 && w[6] == 0 && w[7] == 0
    && w[8] == 0 && w[9] == 0 && w[10] == 0 && w[11] == 0
    && w[12] == 0 && w[13] == 0 && w[14] == 0x00000018 && w[15] == 0
  }

  lemma AbcOperations8(w: seq<bv32>)
    requires AbcWords(w) && Operations(INITIAL, w, 0) == Quad(0x67452301, 0xEFCDAB89, 0x98BADCFE, 0x10325476)
    ensures Operations(INITIAL, w, 8) == Quad(0xC73741EF, 0x928D99F6, 0x207DC67B, 0x8BAC3051)
  {
    assert Operations(INITIAL, w, 1) == Quad(0x10325476, 0xD6D117B4, 0xEFCDAB89, 0x98BADCFE);
    assert Operations(INITIAL, w, 2) == Quad(0x98BADCFE, 0x344A8432, 0xD6D117B4, 0xEFCDAB89);
    assert Operations(INITIAL, w, 3) == Quad(0xEFCDAB89, 0x2F6FBD72, 0x344A8432, 0xD6D117B4);
    assert Operations(INITIAL, w, 4) == Quad(0xD6D117B4, 0x7AD956F2, 0x2F6FBD72, 0x344A8432);
    assert Operations(INITIAL, w, 5) == Quad(0x344A8432, 0xC73741EF, 0x7AD956F2, 0x2F6FBD72);
    assert Operations(INITIAL, w, 6) == Quad(0x2F6FBD72, 0x8BAC3051, 0xC73741EF, 0x7AD956F2);
    assert Operations(INITIAL, w, 7) == Quad(0x7AD956F2, 0x207DC67B, 0x8BAC3051, 0xC73741EF);
  }

  lemma AbcOperations16(w: seq<bv32>)
    requires AbcWords(w) && Operations(INITIAL, w, 8) == Quad(0xC73741EF, 0x928D99F6, 0x207DC67B, 0x8BAC3051)
    ensures Operations(INITIAL, w, 16) == Quad(0xDDA9B9A6, 0x72AFF2E0, 0xE396856B, 0xA1051895)
  {
    assert Operations(INITIAL, w, 9) == Quad(0x8BAC3051, 0x854B3712, 0x928D99F6, 0x207DC67B);
    assert Operations(INITIAL, w, 10) == Quad(0x207DC67B, 0x74E2F284, 0x854B3712, 0x928D99F6);
    assert Operations(INITIAL, w, 11) == Quad(0x928D99F6, 0x3020401C, 0x74E2F284, 0x854B3712);
    assert Operations(INITIAL, w, 12) == Quad(0x854B3712, 0x5ED49596, 0x3020401C, 0x74E2F284);
    assert Operations(INITIAL, w, 13) == Quad(0x74E2F284, 0xDDA9B9A6, 0x5ED49596, 0x3020401C);
    assert Operations(INITIAL, w, 14) == Quad(0x3020401C, 0xA1051895, 0xDDA9B9A6, 0x5ED49596);
    assert Operations(INITIAL, w, 15) == Quad(0x5ED49596, 0xE396856B, 0xA1051895, 0xDDA9B9A6);
  }

  lemma AbcOperations24(w: seq<bv32>)
    requires AbcWords(w) && Operations(INITIAL, w, 16) == Quad(0xDDA9B9A6, 0x72AFF2E0, 0xE396856B, 0xA1051895)
    ensures Operations(INITIAL, w, 24) == Quad(0x59A8FFDA, 0x47092C07, 0xABFC7920, 0x6D002F1E)
  {
    assert Operations(INITIAL, w, 17) == Quad(0xA1051895, 0x3E9E9126, 0x72AFF2E0, 0xE396856B);
    assert Operations(INITIAL, w, 18) == Quad(0xE396856B, 0x4A1D804E, 0x3E9E9126, 0x72AFF2E0);
    assert Operations(INITIAL, w, 19) == Quad(0x72AFF2E0, 0xE25E1652, 0x4A1D804E, 0x3E9E9126);
    assert Operations(INITIAL, w, 20) == Quad(0x3E9E9126, 0xB5B204E4, 0xE25E1652, 0x4A1D804E);
    assert Operations(INITIAL, w, 21) == Quad(0x4A1D804E, 0x59A8FFDA, 0xB5B204E4, 0xE25E1652);
    assert Operations(INITIAL, w, 22) == Quad(0xE25E1652, 0x6D002F1E, 0x59A8FFDA, 0xB5B204E4);
    assert Operations(INITIAL, w, 23) == Quad(0xB5B204E4, 0xABFC7920, 0x6D002F1E, 0x59A8FFDA);
  }

  lemma AbcOperations32(w: seq<bv32>)
    requires AbcWords(w) && Operations(INITIAL, w, 24) == Quad(0x59A8FFDA, 0x47092C07, 0xABFC7920, 0x6D002F1E)
    ensures Operations(INITIAL, w, 32) == Quad(0x790A77FB, 0x726342D3, 0xA62884AA, 0x9F47E4F8)
  {
    assert Operations(INITIAL, w, 25) == Quad(0x6D002F1E, 0xB7F268CF, 0x47092C07, 0xABFC7920);
    assert Operations(INITIAL, w, 26) == Quad(0xABFC7920, 0x09388EFF, 0xB7F268CF, 0x47092C07);
    assert Operations(INITIAL, w, 27) == Quad(0x47092C07, 0xFE1623B1, 0x09388EFF, 0xB7F268CF);
    assert Operations(INITIAL, w, 28) == Quad(0xB7F268CF, 0x786ACB8F, 0xFE1623B1, 0x09388EFF);
    assert Operations(INITIAL, w, 29) == Quad(0x09388EFF, 0x790A77FB, 0x786ACB8F, 0xFE1623B1);
    assert Operations(INITIAL, w, 30) == Quad(0xFE1623B1, 0x9F47E4F8, 0x790A77FB, 0x786ACB8F);
    assert Operations(INITIAL, w, 31) == Quad(0x786ACB8F, 0xA62884AA, 0x9F47E4F8, 0x790A77FB);
  }

  lemma AbcOperations40(w: seq<bv32>)
    requires AbcWords(w) && Operations(INITIAL, w, 32) == Quad(0x790A77FB, 0x726342D3, 0xA62884AA, 0x9F47E4F8)
    ensures Operations(INITIAL, w, 40) == Quad(0x21B117B9, 0x5A2F5EA5, 0x3575227E, 0x6E7429D5)
  {
    assert Operations(INITIAL, w, 33) == Quad(0x9F47E4F8, 0xB3707EBF, 0x726342D3, 0xA62884AA);
    assert Operations(INITIAL, w, 34) == Quad(0xA62884AA, 0x60127B2E, 0xB3707EBF, 0x726342D3);
    assert Operations(INITIAL, w, 35) == Quad(0x726342D3, 0x8D212FF5, 0x60127B2E, 0xB3707EBF);
    assert Operations(INITIAL, w, 36) == Quad(0xB3707EBF, 0x3B0875C7, 0x8D212FF5, 0x60127B2E);
    assert Operations(INITIAL, w, 37) == Quad(0x60127B2E, 0x21B117B9, 0x3B0875C7, 0x8D212FF5);
    assert Operations(INITIAL, w, 38) == Quad(0x8D212FF5, 0x6E7429D5, 0x21B117B9, 0x3B0875C7);
    assert Operations(INITIAL, w, 39) == Quad(0x3B0875C7, 0x3575227E, 0x6E7429D5, 0x21B117B9);
  }

  lemma AbcOperations48(w: seq<bv32>)
    requires AbcWords(w) && Operations(INITIAL, w, 40) == Quad(0x21B117B9, 0x5A2F5EA5, 0x3575227E, 0x6E7429D5)
    ensures Operations(INITIAL, w, 48) == Quad(0x7F2E507B, 0x7BEB9700, 0x8FAE6399, 0x99D9679D)
  {
    assert Operations(INITIAL, w, 41) == Quad(0x6E7429D5, 0x11DE1779, 0x5A2F5EA5, 0x3575227E);
    assert Operations(INITIAL, w, 42) == Quad(0x3575227E, 0xFADCAA38, 0x11DE1779, 0x5A2F5EA5);
    assert Operations(INITIAL, w, 43) == Quad(0x5A2F5EA5, 0x31C465CA, 0xFADCAA38, 0x11DE1779);
    assert Operations(INITIAL, w, 44) == Quad(0x11DE1779, 0x4C6124F4, 0x31C465CA, 0xFADCAA38);
    assert Operations(INITIAL, w, 45) == Quad(0xFADCAA38, 0x7F2E507B, 0x4C6124F4, 0x31C465CA);
    assert Operations(INITIAL, w, 46) == Quad(0x31C465CA, 0x99D9679D, 0x7F2E507B, 0x4C6124F4);
    assert Operations(INITIAL, w, 47) == Quad(0x4C6124F4, 0x8FAE6399, 0x99D9679D, 0x7F2E507B);
  }

  lemma AbcOperations56(w: seq<bv32>)
    requires AbcWords(w) && Operations(INITIAL, w, 48) == Quad(0x7F2E507B, 0x7BEB9700, 0x8FAE6399, 0x99D9679D)
    ensures Operations(INITIAL, w, 56) == Quad(0x06CC5E8A, 0x3BFA2C27, 0x7D632DD0, 0x5B0D97AA)
  {
    assert Operations(INITIAL, w, 49) == Quad(0x99D9679D, 0x7B201DF8, 0x7BEB9700, 0x8FAE6399);
    assert Operations(INITIAL, w, 50) == Quad(0x8FAE6399, 0xF4E8E96E, 0x7B201DF8, 0x7BEB9700);
    assert Operations(INITIAL, w, 51) == Quad(0x7BEB9700, 0xB298CEFD, 0xF4E8E96E, 0x7B201DF8);
    assert Operations(INITIAL, w, 52) == Quad(0x7B201DF8, 0x8BF025C4, 0xB298CEFD, 0xF4E8E96E);
    assert Operations(INITIAL, w, 53) == Quad(0xF4E8E96E, 0x06CC5E8A, 0x8BF025C4, 0xB298CEFD);
    assert Operations(INITIAL, w, 54) == Quad(0xB298CEFD, 0x5B0D97AA, 0x06CC5E8A, 0x8BF025C4);
    assert Operations(INITIAL, w, 55) == Quad(0x8BF025C4, 0x7D632DD0, 0x5B0D97AA, 0x06CC5E8A);
  }

  lemma AbcOperations64(w: seq<bv32>)
    requires AbcWords(w) && Operations(INITIAL, w, 56) == Quad(0x06CC5E8A, 0x3BFA2C27, 0x7D632DD0, 0x5B0D97AA)
    ensures Operations(INITIAL, w, 64) == Quad(0x310ADE8F, 0xC08226B3, 0xE484B9D8, 0x624D8CB2)
  {
    assert Operations(INITIAL, w, 57) == Quad(0x5B0D97AA, 0x7F81CC35, 0x3BFA2C27, 0x7D632DD0);
    assert Operations(INITIAL, w, 58) == Quad(0x7D632DD0, 0x094454AB, 0x7F81CC35, 0x3BFA2C27);
    assert Operations(INITIAL, w, 59) == Quad(0x3BFA2C27, 0x4F9DBE3F, 0x094454AB, 0x7F81CC35);
    assert Operations(INITIAL, w, 60) == Quad(0x7F81CC35, 0x7327D604, 0x4F9DBE3F, 0x094454AB);
    assert Operations(INITIAL, w, 61) == Quad(0x094454AB, 0x310ADE8F, 0x7327D604, 0x4F9DBE3F);
    assert Operations(INITIAL, w, 62) == Quad(0x4F9DBE3F, 0x624D8CB2, 0x310ADE8F, 0x7327D604);
    assert Operations(INITIAL, w, 63) == Quad(0x7327D604, 0xE484B9D8, 0x624D8CB2, 0x310ADE8F);
  }

  lemma AbcOperations(w: seq<bv32>)
    requires AbcWords(w)
    ensures Operations(INITIAL, w, 64) == Quad(0x310ADE8F, 0xC08226B3, 0xE484B9D8, 0x624D8CB2)
  {
    hide Operation;
    AbcOperations8(w);
    AbcOperations16(w);
    AbcOperations24(w);
    AbcOperations32(w);
    AbcOperations40(w);
    AbcOperations48(w);
    AbcOperations56(w);
    AbcOperations64(w);
  }

  lemma AbcTextA(x: bv32)
    requires x == 0x98500190
    ensures HexText(Split(x)) == Ascii("90015098")
  {
    TextOfWord(x, 0x90, 0x01, 0x50, 0x98, "90015098");
  }

  lemma AbcTextB(x: bv32)
    requires x == 0xB04FD23C
    ensures HexText(Split(x)) == Ascii("3cd24fb0")
  {
    TextOfWord(x, 0x3C, 0xD2, 0x4F, 0xB0, "3cd24fb0");
  }

  lemma AbcTextC(x: bv32)
    requires x == 0x7D3F96D6
    ensures HexText(Split(x)) == Ascii("d6963f7d")
  {
    TextOfWord(x, 0xD6, 0x96, 0x3F, 0x7D, "d6963f7d");
  }

  lemma AbcTextD(x: bv32)
    requires x == 0x727FE128
    ensures HexText(Split(x)) == Ascii("28e17f72")
  {
    TextOfWord(x, 0x28, 0xE1, 0x7F, 0x72, "28e17f72");
  }

  lemma AbcText(q: Quad)
    requires q == Quad(0x98500190, 0xB04FD23C, 0x7D3F96D6, 0x727FE128)
    ensures HexText(Output(q)) == Ascii("900150983cd24fb0d6963f7d28e17f72")
  {
    hide HexText, Split, Output;
    TextOfWords(q);
    AbcTextA(q.a);
    AbcTextB(q.b);
    AbcTextC(q.c);
    AbcTextD(q.d);
    assert "90015098" + "3cd24fb0" + "d6963f7d" + "28e17f72" == "900150983cd24fb0d6963f7d28e17f72";
  }

  // ---------------------------------------------------------------- one padded block

  /** A message and its padding that fill one block. */
  lemma OneBlock(block: seq<byte>)
    requires |block| == 64
    ensures Blocks(block) == AddQuads(INITIAL, Operations(INITIAL, Words(block), 64))
  {
    hide Operations, Words, AddQuads;
    assert block[..0] == [] && block[0..] == block;
    assert Blocks(block[..0]) == INITIAL;
  }

  lemma ZeroWord(block: seq<byte>, k: nat)
    requires |block| == 64 && k < 16
    requires block[4 * k] == block[4 * k + 1] == block[4 * k + 2] == block[4 * k + 3] == 0
    ensures Words(block)[k] == 0
  {
  }

  lemma FirstByte(block: seq<byte>, k: nat, x: byte)
    requires |block| == 64 && k < 16 && block[4 * k] == x
    requires block[4 * k + 1] == block[4 * k + 2] == block[4 * k + 3] == 0
    ensures x == 0x80 ==> Words(block)[k] == 0x80
    ensures x == 24 ==> Words(block)[k] == 24
  {
  }

  lemma EmptyBlock(m: seq<byte>)
    requires m == []
    ensures |m + Padding(|m|)| == 64 && EmptyWords(Words(m + Padding(|m|)))
  {
    hide Words;
    var block := m + Padding(|m|);
    assert LengthBytes(0) == Zeros(8);
    assert forall i :: 0 <= i < 64 ==> block[i] == if i == 0 then 0x80 else 0;
    FirstByte(block, 0, 0x80);
    forall k | 0 < k < 16
      ensures Words(block)[k] == 0
    {
      ZeroWord(block, k);
    }
  }

  lemma AbcBlock(m: seq<byte>)
    requires m == Ascii("abc")
    ensures |m + Padding(|m|)| == 64 && AbcWords(Words(m + Padding(|m|)))
  {
    hide Words;
    var block := m + Padding(|m|);
    assert LengthBytes(24) == [24] + Zeros(7);
    assert block[0] == 97 && block[1] == 98 && block[2] == 99 && block[3] == 0x80;
    assert forall i :: 4 <= i < 64 ==> block[i] == if i == 56 then 24 else 0;
    AbcFirstWord(block);
    FirstByte(block, 14, 24);
    forall k | 0 < k < 16 && k != 14
      ensures Words(block)[k] == 0
    {
      ZeroWord(block, k);
    }
  }

  lemma AbcFirstWord(block: seq<byte>)
    requires |block| == 64 && block[0] == 97 && block[1] == 98 && block[2] == 99 && block[3] == 0x80
    ensures Words(block)[0] == 0x80636261
  {
  }

  // ---------------------------------------------------------------- the answers

  /** MD5 ("") */
  lemma EmptyMessage(m: seq<byte>)
    requires m == []
    ensures Md5Text(m) == Ascii("d41d8cd98f00b204e9800998ecf8427e")
  {
    hide Operations, Words, Padding, HexText, Output, EmptyWords;
    var block := m + Padding(|m|);
    EmptyBlock(m);
    OneBlock(block);
    EmptyOperations(Words(block));
    EmptyText(Blocks(block));
  }

  /** MD5 ("abc") */
  lemma AbcMessage(m: seq<byte>)
    requires m == Ascii("abc")
    ensures Md5Text(m) == Ascii("900150983cd24fb0d6963f7d28e17f72")
  {
    hide Operations, Words, Padding, HexText, Output, AbcWords;
    var block := m + Padding(|m|);
    AbcBlock(m);
    OneBlock(block);
    AbcOperations(Words(block));
    AbcText(Blocks(block));
  }
}
