/** The longest alphabet of section A.5 of RFC 1321: a message whose padding needs a second block, and whose
    first block has sixteen different words. */
module Md5TwoBlocks {
  import opened Bytes
  import opened Md5
  import opened Md5Answers

  // ---------------------------------------------------------------- the first block

  ghost predicate FirstWords(w: seq<bv32>) {
    && |w| == 16
    && w[0] == 0x44434241 && w[1] == 0x48474645 && w[2] == 0x4C4B4A49 && w[3] == 0x504F4E4D
    && w[4] == 0x54535251 && w[5] == 0x58575655 && w[6] == 0x62615A59 && w[7] == 0x66656463
    && w[8] == 0x6A696867 && w[9] == 0x6E6D6C6B && w[10] == 0x7271706F && w[11] == 0x76757473
    && w[12] == 0x7A797877 && w[13] == 0x33323130 && w[14] == 0x37363534 && w[15] == 0x00803938
  }

  lemma First8(w: seq<bv32>)
    requires FirstWords(w)
    requires Operations(INITIAL, w, 0) == Quad(0x67452301, 0xEFCDAB89, 0x98BADCFE, 0x10325476)
    ensures Operations(INITIAL, w, 8) == Quad(0xF22E6C4E, 0xA4799506, 0xA95A2FC0, 0xB4AC9218)
  {
    assert Operations(INITIAL, w, 1) == Quad(0x10325476, 0xC6C10796, 0xEFCDAB89, 0x98BADCFE);
    assert Operations(INITIAL, w, 2) == Quad(0x98BADCFE, 0x99A09999, 0xC6C10796, 0xEFCDAB89);
    assert Operations(INITIAL, w, 3) == Quad(0xEFCDAB89, 0x11067980, 0x99A09999, 0xC6C10796);
    assert Operations(INITIAL, w, 4) == Quad(0xC6C10796, 0x27BCE07A, 0x11067980, 0x99A09999);
    assert Operations(INITIAL, w, 5) == Quad(0x99A09999, 0xF22E6C4E, 0x27BCE07A, 0x11067980);
    assert Operations(INITIAL, w, 6) == Quad(0x11067980, 0xB4AC9218, 0xF22E6C4E, 0x27BCE07A);
    assert Operations(INITIAL, w, 7) == Quad(0x27BCE07A, 0xA95A2FC0, 0xB4AC9218, 0xF22E6C4E);
  }

  lemma First16(w: seq<bv32>)
    requires FirstWords(w)
    requires Operations(INITIAL, w, 8) == Quad(0xF22E6C4E, 0xA4799506, 0xA95A2FC0, 0xB4AC9218)
    ensures Operations(INITIAL, w, 16) == Quad(0x3CBDCD45, 0x5D38E690, 0xFA148C8A, 0xB8DEC763)
  {
    assert Operations(INITIAL, w, 9) == Quad(0xB4AC9218, 0x1EB3E7C1, 0xA4799506, 0xA95A2FC0);
    assert Operations(INITIAL, w, 10) == Quad(0xA95A2FC0, 0xA6E70CFE, 0x1EB3E7C1, 0xA4799506);
    assert Operations(INITIAL, w, 11) == Quad(0xA4799506, 0xCA27520B, 0xA6E70CFE, 0x1EB3E7C1);
    assert Operations(INITIAL, w, 12) == Quad(0x1EB3E7C1, 0x8A7612EC, 0xCA27520B, 0xA6E70CFE);
    assert Operations(INITIAL, w, 13) == Quad(0xA6E70CFE, 0x3CBDCD45, 0x8A7612EC, 0xCA27520B);
    assert Operations(INITIAL, w, 14) == Quad(0xCA27520B, 0xB8DEC763, 0x3CBDCD45, 0x8A7612EC);
    assert Operations(INITIAL, w, 15) == Quad(0x8A7612EC, 0xFA148C8A, 0xB8DEC763, 0x3CBDCD45);
  }

  lemma First24(w: seq<bv32>)
    requires FirstWords(w)
    requires Operations(INITIAL, w, 16) == Quad(0x3CBDCD45, 0x5D38E690, 0xFA148C8A, 0xB8DEC763)
    ensures Operations(INITIAL, w, 24) == Quad(0x2D7D8A3F, 0x75292030, 0x4B534DC3, 0xD1210823)
  {
    assert Operations(INITIAL, w, 17) == Quad(0xB8DEC763, 0x04B9D52A, 0x5D38E690, 0xFA148C8A);
    assert Operations(INITIAL, w, 18) == Quad(0xFA148C8A, 0x783002EB, 0x04B9D52A, 0x5D38E690);
    assert Operations(INITIAL, w, 19) == Quad(0x5D38E690, 0xD3EE3ED1, 0x783002EB, 0x04B9D52A);
    assert Operations(INITIAL, w, 20) == Quad(0x04B9D52A, 0x47AE7C81, 0xD3EE3ED1, 0x783002EB);
    assert Operations(INITIAL, w, 21) == Quad(0x783002EB, 0x2D7D8A3F, 0x47AE7C81, 0xD3EE3ED1);
    assert Operations(INITIAL, w, 22) == Quad(0xD3EE3ED1, 0xD1210823, 0x2D7D8A3F, 0x47AE7C81);
    assert Operations(INITIAL, w, 23) == Quad(0x47AE7C81, 0x4B534DC3, 0xD1210823, 0x2D7D8A3F);
  }

  lemma First32(w: seq<bv32>)
    requires FirstWords(w)
    requires Operations(INITIAL, w, 24) == Quad(0x2D7D8A3F, 0x75292030, 0x4B534DC3, 0xD1210823)
    ensures Operations(INITIAL, w, 32) == Quad(0x9B085FA9, 0xDD789ECC, 0x5993248F, 0x4400A9BD)
  {
    assert Operations(INITIAL, w, 25) == Quad(0xD1210823, 0x9D2A6E33, 0x75292030, 0x4B534DC3);
    assert Operations(INITIAL, w, 26) == Quad(0x4B534DC3, 0x0E8D2E44, 0x9D2A6E33, 0x75292030);
    assert Operations(INITIAL, w, 27) == Quad(0x75292030, 0xD473B564, 0x0E8D2E44, 0x9D2A6E33);
    assert Operations(INITIAL, w, 28) == Quad(0x9D2A6E33, 0xF2FF6EA0, 0xD473B564, 0x0E8D2E44);
    assert Operations(INITIAL, w, 29) == Quad(0x0E8D2E44, 0x9B085FA9, 0xF2FF6EA0, 0xD473B564);
    assert Operations(INITIAL, w, 30) == Quad(0xD473B564, 0x4400A9BD, 0x9B085FA9, 0xF2FF6EA0);
    assert Operations(INITIAL, w, 31) == Quad(0xF2FF6EA0, 0x5993248F, 0x4400A9BD, 0x9B085FA9);
  }

  lemma First40(w: seq<bv32>)
    requires FirstWords(w)
    requires Operations(INITIAL, w, 32) == Quad(0x9B085FA9, 0xDD789ECC, 0x5993248F, 0x4400A9BD)
    ensures Operations(INITIAL, w, 40) == Quad(0x436B7FE9, 0xCF0341ED, 0xF404C2F6, 0x075800C1)
  {
    assert Operations(INITIAL, w, 33) == Quad(0x4400A9BD, 0x21C8D2B7, 0xDD789ECC, 0x5993248F);
    assert Operations(INITIAL, w, 34) == Quad(0x5993248F, 0x1D55A18E, 0x21C8D2B7, 0xDD789ECC);
    assert Operations(INITIAL, w, 35) == Quad(0xDD789ECC, 0x056EC119, 0x1D55A18E, 0x21C8D2B7);
    assert Operations(INITIAL, w, 36) == Quad(0x21C8D2B7, 0x1B9504F8, 0x056EC119, 0x1D55A18E);
    assert Operations(INITIAL, w, 37) == Quad(0x1D55A18E, 0x436B7FE9, 0x1B9504F8, 0x056EC119);
    assert Operations(INITIAL, w, 38) == Quad(0x056EC119, 0x075800C1, 0x436B7FE9, 0x1B9504F8);
    assert Operations(INITIAL, w, 39) == Quad(0x1B9504F8, 0xF404C2F6, 0x075800C1, 0x436B7FE9);
  }

  lemma First48(w: seq<bv32>)
    requires FirstWords(w)
    requires Operations(INITIAL, w, 40) == Quad(0x436B7FE9, 0xCF0341ED, 0xF404C2F6, 0x075800C1)
    ensures Operations(INITIAL, w, 48) == Quad(0x2DBEE21D, 0xF166F514, 0xEE46E961, 0xE95C3A43)
  {
    assert Operations(INITIAL, w, 41) == Quad(0x075800C1, 0x888E7D8A, 0xCF0341ED, 0xF404C2F6);
    assert Operations(INITIAL, w, 42) == Quad(0xF404C2F6, 0xBBDAECD8, 0x888E7D8A, 0xCF0341ED);
    assert Operations(INITIAL, w, 43) == Quad(0xCF0341ED, 0xCE620273, 0xBBDAECD8, 0x888E7D8A);
    assert Operations(INITIAL, w, 44) == Quad(0x888E7D8A, 0x047B9419, 0xCE620273, 0xBBDAECD8);
    assert Operations(INITIAL, w, 45) == Quad(0xBBDAECD8, 0x2DBEE21D, 0x047B9419, 0xCE620273);
    assert Operations(INITIAL, w, 46) == Quad(0xCE620273, 0xE95C3A43, 0x2DBEE21D, 0x047B9419);
    assert Operations(INITIAL, w, 47) == Quad(0x047B9419, 0xEE46E961, 0xE95C3A43, 0x2DBEE21D);
  }

  lemma First56(w: seq<bv32>)
    requires FirstWords(w)
    requires Operations(INITIAL, w, 48) == Quad(0x2DBEE21D, 0xF166F514, 0xEE46E961, 0xE95C3A43)
    ensures Operations(INITIAL, w, 56) == Quad(0xA691D430, 0xEFB0E72F, 0x3FC23DF6, 0x528452F2)
  {
    assert Operations(INITIAL, w, 49) == Quad(0xE95C3A43, 0xE47FD4F3, 0xF166F514, 0xEE46E961);
    assert Operations(INITIAL, w, 50) == Quad(0xEE46E961, 0xFB887751, 0xE47FD4F3, 0xF166F514);
    assert Operations(INITIAL, w, 51) == Quad(0xF166F514, 0xF22AEDCC, 0xFB887751, 0xE47FD4F3);
    assert Operations(INITIAL, w, 52) == Quad(0xE47FD4F3, 0x7A13BC5C, 0xF22AEDCC, 0xFB887751);
    assert Operations(INITIAL, w, 53) == Quad(0xFB887751, 0xA691D430, 0x7A13BC5C, 0xF22AEDCC);
    assert Operations(INITIAL, w, 54) == Quad(0xF22AEDCC, 0x528452F2, 0xA691D430, 0x7A13BC5C);
    assert Operations(INITIAL, w, 55) == Quad(0x7A13BC5C, 0x3FC23DF6, 0x528452F2, 0xA691D430);
  }

  lemma First64(w: seq<bv32>)
    requires FirstWords(w)
    requires Operations(INITIAL, w, 56) == Quad(0xA691D430, 0xEFB0E72F, 0x3FC23DF6, 0x528452F2)
    ensures Operations(INITIAL, w, 64) == Quad(0x1CB80F0A, 0xEF2E3A46, 0x10F68731, 0xEA3D3EB4)
  {
    assert Operations(INITIAL, w, 57) == Quad(0x528452F2, 0x27145703, 0xEFB0E72F, 0x3FC23DF6);
    assert Operations(INITIAL, w, 58) == Quad(0x3FC23DF6, 0x21A11069, 0x27145703, 0xEFB0E72F);
    assert Operations(INITIAL, w, 59) == Quad(0xEFB0E72F, 0x374FBE79, 0x21A11069, 0x27145703);
    assert Operations(INITIAL, w, 60) == Quad(0x27145703, 0x49D9A5B4, 0x374FBE79, 0x21A11069);
    assert Operations(INITIAL, w, 61) == Quad(0x21A11069, 0x1CB80F0A, 0x49D9A5B4, 0x374FBE79);
    assert Operations(INITIAL, w, 62) == Quad(0x374FBE79, 0xEA3D3EB4, 0x1CB80F0A, 0x49D9A5B4);
    assert Operations(INITIAL, w, 63) == Quad(0x49D9A5B4, 0x10F68731, 0xEA3D3EB4, 0x1CB80F0A);
  }

  lemma First(w: seq<bv32>)
    requires FirstWords(w)
    ensures Operations(INITIAL, w, 64) == Quad(0x1CB80F0A, 0xEF2E3A46, 0x10F68731, 0xEA3D3EB4)
  {
    hide Operation;
    First8(w);
    First16(w);
    First24(w);
    First32(w);
    First40(w);
    First48(w);
    First56(w);
    First64(w);
  }

  // ---------------------------------------------------------------- the second block

  ghost predicate SecondWords(w: seq<bv32>) {
    && |w| == 16
    && w[0] == 0 && w[1] == 0 && w[2] == 0 && w[3] == 0
    && w[4] == 0 && w[5] == 0 && w[6] == 0 && w[7] == 0
    && w[8] == 0 && w[9] == 0 && w[10] == 0 && w[11] == 0
    && w[12] == 0 && w[13] == 0 && w[14] == 0x000001F0 && w[15] == 0
  }

  lemma Second8(q: Quad, w: seq<bv32>)
    requires SecondWords(w) && q == Quad(0x83FD320B, 0xDEFBE5CF, 0xA9B1642F, 0xFA6F932A)
    requires Operations(q, w, 0) == Quad(0x83FD320B, 0xDEFBE5CF, 0xA9B1642F, 0xFA6F932A)
    ensures Operations(q, w, 8) == Quad(0x75144433, 0x99B6B699, 0xC783CB60, 0xC8875807)
  {
    assert Operations(q, w, 1) == Quad(0xFA6F932A, 0xEDA23ED1, 0xDEFBE5CF, 0xA9B1642F);
    assert Operations(q, w, 2) == Quad(0xA9B1642F, 0x989939CF, 0xEDA23ED1, 0xDEFBE5CF);
    assert Operations(q, w, 3) == Quad(0xDEFBE5CF, 0x3C307338, 0x989939CF, 0xEDA23ED1);
    assert Operations(q, w, 4) == Quad(0xEDA23ED1, 0xDDCF0634, 0x3C307338, 0x989939CF);
    assert Operations(q, w, 5) == Quad(0x989939CF, 0x75144433, 0xDDCF0634, 0x3C307338);
    assert Operations(q, w, 6) == Quad(0x3C307338, 0xC8875807, 0x75144433, 0xDDCF0634);
    assert Operations(q, w, 7) == Quad(0xDDCF0634, 0xC783CB60, 0xC8875807, 0x75144433);
  }

  lemma Second16(q: Quad, w: seq<bv32>)
    requires SecondWords(w) && q == Quad(0x83FD320B, 0xDEFBE5CF, 0xA9B1642F, 0xFA6F932A)
    requires Operations(q, w, 8) == Quad(0x75144433, 0x99B6B699, 0xC783CB60, 0xC8875807)
    ensures Operations(q, w, 16) == Quad(0xA70737DA, 0xA36F556F, 0x96F6586E, 0x5473F8A7)
  {
    assert Operations(q, w, 9) == Quad(0xC8875807, 0xA60A3F69, 0x99B6B699, 0xC783CB60);
    assert Operations(q, w, 10) == Quad(0xC783CB60, 0xAA6630BE, 0xA60A3F69, 0x99B6B699);
    assert Operations(q, w, 11) == Quad(0x99B6B699, 0x64DB26E9, 0xAA6630BE, 0xA60A3F69);
    assert Operations(q, w, 12) == Quad(0xA60A3F69, 0x64CC7C5A, 0x64DB26E9, 0xAA6630BE);
    assert Operations(q, w, 13) == Quad(0xAA6630BE, 0xA70737DA, 0x64CC7C5A, 0x64DB26E9);
    assert Operations(q, w, 14) == Quad(0x64DB26E9, 0x5473F8A7, 0xA70737DA, 0x64CC7C5A);
    assert Operations(q, w, 15) == Quad(0x64CC7C5A, 0x96F6586E, 0x5473F8A7, 0xA70737DA);
  }

  lemma Second24(q: Quad, w: seq<bv32>)
    requires SecondWords(w) && q == Quad(0x83FD320B, 0xDEFBE5CF, 0xA9B1642F, 0xFA6F932A)
    requires Operations(q, w, 16) == Quad(0xA70737DA, 0xA36F556F, 0x96F6586E, 0x5473F8A7)
    ensures Operations(q, w, 24) == Quad(0xE04F070C, 0xDF35CB56, 0xC0D22B61, 0x2F3CD2A2)
  {
    assert Operations(q, w, 17) == Quad(0x5473F8A7, 0xA5050AD3, 0xA36F556F, 0x96F6586E);
    assert Operations(q, w, 18) == Quad(0x96F6586E, 0x28776046, 0xA5050AD3, 0xA36F556F);
    assert Operations(q, w, 19) == Quad(0xA36F556F, 0x27DCD8B4, 0x28776046, 0xA5050AD3);
    assert Operations(q, w, 20) == Quad(0xA5050AD3, 0x82B8827C, 0x27DCD8B4, 0x28776046);
    assert Operations(q, w, 21) == Quad(0x28776046, 0xE04F070C, 0x82B8827C, 0x27DCD8B4);
    assert Operations(q, w, 22) == Quad(0x27DCD8B4, 0x2F3CD2A2, 0xE04F070C, 0x82B8827C);
    assert Operations(q, w, 23) == Quad(0x82B8827C, 0xC0D22B61, 0x2F3CD2A2, 0xE04F070C);
  }

  lemma Second32(q: Quad, w: seq<bv32>)
    requires SecondWords(w) && q == Quad(0x83FD320B, 0xDEFBE5CF, 0xA9B1642F, 0xFA6F932A)
    requires Operations(q, w, 24) == Quad(0xE04F070C, 0xDF35CB56, 0xC0D22B61, 0x2F3CD2A2)
    ensures Operations(q, w, 32) == Quad(0x24EBA695, 0x9C03E2E8, 0x10C42A2F, 0x4BD0378B)
  {
    assert Operations(q, w, 25) == Quad(0x2F3CD2A2, 0x242DD210, 0xDF35CB56, 0xC0D22B61);
    assert Operations(q, w, 26) == Quad(0xC0D22B61, 0x576ACE33, 0x242DD210, 0xDF35CB56);
    assert Operations(q, w, 27) == Quad(0xDF35CB56, 0x5C295967, 0x576ACE33, 0x242DD210);
    assert Operations(q, w, 28) == Quad(0x242DD210, 0x2291191A, 0x5C295967, 0x576ACE33);
    assert Operations(q, w, 29) == Quad(0x576ACE33, 0x24EBA695, 0x2291191A, 0x5C295967);
    assert Operations(q, w, 30) == Quad(0x5C295967, 0x4BD0378B, 0x24EBA695, 0x2291191A);
    assert Operations(q, w, 31) == Quad(0x2291191A, 0x10C42A2F, 0x4BD0378B, 0x24EBA695);
  }

  lemma Second40(q: Quad, w: seq<bv32>)
    requires SecondWords(w) && q == Quad(0x83FD320B, 0xDEFBE5CF, 0xA9B1642F, 0xFA6F932A)
    requires Operations(q, w, 32) == Quad(0x24EBA695, 0x9C03E2E8, 0x10C42A2F, 0x4BD0378B)
    ensures Operations(q, w, 40) == Quad(0xE14E403D, 0xFE314121, 0x60CC183A, 0xE8CFD670)
  {
    assert Operations(q, w, 33) == Quad(0x4BD0378B, 0x5BE1D526, 0x9C03E2E8, 0x10C42A2F);
    assert Operations(q, w, 34) == Quad(0x10C42A2F, 0x9E414279, 0x5BE1D526, 0x9C03E2E8);
    assert Operations(q, w, 35) == Quad(0x9C03E2E8, 0x9F4A1A7E, 0x9E414279, 0x5BE1D526);
    assert Operations(q, w, 36) == Quad(0x5BE1D526, 0xA2448453, 0x9F4A1A7E, 0x9E414279);
    assert Operations(q, w, 37) == Quad(0x9E414279, 0xE14E403D, 0xA2448453, 0x9F4A1A7E);
    assert Operations(q, w, 38) == Quad(0x9F4A1A7E, 0xE8CFD670, 0xE14E403D, 0xA2448453);
    assert Operations(q, w, 39) == Quad(0xA2448453, 0x60CC183A, 0xE8CFD670, 0xE14E403D);
  }

  lemma Second48(q: Quad, w: seq<bv32>)
    requires SecondWords(w) && q == Quad(0x83FD320B, 0xDEFBE5CF, 0xA9B1642F, 0xFA6F932A)
    requires Operations(q, w, 40) == Quad(0xE14E403D, 0xFE314121, 0x60CC183A, 0xE8CFD670)
    ensures Operations(q, w, 48) == Quad(0x54C9EB3A, 0x79C0710A, 0x2EC86F72, 0xD4D9C6AC)
  {
    assert Operations(q, w, 41) == Quad(0xE8CFD670, 0xFFF62809, 0xFE314121, 0x60CC183A);
    assert Operations(q, w, 42) == Quad(0x60CC183A, 0xE37209AC, 0xFFF62809, 0xFE314121);
    assert Operations(q, w, 43) == Quad(0xFE314121, 0x8CB5221C, 0xE37209AC, 0xFFF62809);
    assert Operations(q, w, 44) == Quad(0xFFF62809, 0x7C7E974C, 0x8CB5221C, 0xE37209AC);
    assert Operations(q, w, 45) == Quad(0xE37209AC, 0x54C9EB3A, 0x7C7E974C, 0x8CB5221C);
    assert Operations(q, w, 46) == Quad(0x8CB5221C, 0xD4D9C6AC, 0x54C9EB3A, 0x7C7E974C);
    assert Operations(q, w, 47) == Quad(0x7C7E974C, 0x2EC86F72, 0xD4D9C6AC, 0x54C9EB3A);
  }

  lemma Second56(q: Quad, w: seq<bv32>)
    requires SecondWords(w) && q == Quad(0x83FD320B, 0xDEFBE5CF, 0xA9B1642F, 0xFA6F932A)
    requires Operations(q, w, 48) == Quad(0x54C9EB3A, 0x79C0710A, 0x2EC86F72, 0xD4D9C6AC)
    ensures Operations(q, w, 56) == Quad(0xE126C1AA, 0xFB7BCEE0, 0x6F287FF5, 0x96B00FA7)
  {
    assert Operations(q, w, 49) == Quad(0xD4D9C6AC, 0x02095AF1, 0x79C0710A, 0x2EC86F72);
    assert Operations(q, w, 50) == Quad(0x2EC86F72, 0x13D245FD, 0x02095AF1, 0x79C0710A);
    assert Operations(q, w, 51) == Quad(0x79C0710A, 0xA8DCFE26, 0x13D245FD, 0x02095AF1);
    assert Operations(q, w, 52) == Quad(0x02095AF1, 0x2BA98E3F, 0xA8DCFE26, 0x13D245FD);
    assert Operations(q, w, 53) == Quad(0x13D245FD, 0xE126C1AA, 0x2BA98E3F, 0xA8DCFE26);
    assert Operations(q, w, 54) == Quad(0xA8DCFE26, 0x96B00FA7, 0xE126C1AA, 0x2BA98E3F);
    assert Operations(q, w, 55) == Quad(0x2BA98E3F, 0x6F287FF5, 0x96B00FA7, 0xE126C1AA);
  }

  lemma Second64(q: Quad, w: seq<bv32>)
    requires SecondWords(w) && q == Quad(0x83FD320B, 0xDEFBE5CF, 0xA9B1642F, 0xFA6F932A)
    requires Operations(q, w, 56) == Quad(0xE126C1AA, 0xFB7BCEE0, 0x6F287FF5, 0x96B00FA7)
    ensures Operations(q, w, 64) == Quad(0x14AE42C6, 0x16DD9203, 0x826AFD76, 0xA52DAE75)
  {
    assert Operations(q, w, 57) == Quad(0x96B00FA7, 0x452C1099, 0xFB7BCEE0, 0x6F287FF5);
    assert Operations(q, w, 58) == Quad(0x6F287FF5, 0xCA801BA6, 0x452C1099, 0xFB7BCEE0);
    assert Operations(q, w, 59) == Quad(0xFB7BCEE0, 0xC197EA8E, 0xCA801BA6, 0x452C1099);
    assert Operations(q, w, 60) == Quad(0x452C1099, 0x5AC74608, 0xC197EA8E, 0xCA801BA6);
    assert Operations(q, w, 61) == Quad(0xCA801BA6, 0x14AE42C6, 0x5AC74608, 0xC197EA8E);
    assert Operations(q, w, 62) == Quad(0xC197EA8E, 0xA52DAE75, 0x14AE42C6, 0x5AC74608);
    assert Operations(q, w, 63) == Quad(0x5AC74608, 0x826AFD76, 0xA52DAE75, 0x14AE42C6);
  }

  lemma Second(q: Quad, w: seq<bv32>)
    requires SecondWords(w) && q == Quad(0x83FD320B, 0xDEFBE5CF, 0xA9B1642F, 0xFA6F932A)
    ensures Operations(q, w, 64) == Quad(0x14AE42C6, 0x16DD9203, 0x826AFD76, 0xA52DAE75)
  {
    hide Operation;
    Second8(q, w);
    Second16(q, w);
    Second24(q, w);
    Second32(q, w);
    Second40(q, w);
    Second48(q, w);
    Second56(q, w);
    Second64(q, w);
  }

  // ---------------------------------------------------------------- the padded message

  /** Four bytes as a word. */
  lemma WordOf(block: seq<byte>, k: nat, a: byte, b: byte, c: byte, d: byte)
    requires |block| == 64 && k < 16
    requires block[4 * k] == a && block[4 * k + 1] == b && block[4 * k + 2] == c && block[4 * k + 3] == d
    ensures Words(block)[k] == Join(Octet(a), Octet(b), Octet(c), Octet(d))
  {
    hide Join, Octet;
  }

  /** The alphabets of upper and lower case and the digits, and the first two bytes of the padding. */
  predicate Alphabet(block: seq<byte>) {
    && |block| == 64
    && (forall i :: 0 <= i < 26 ==> block[i] == 65 + i)
    && (forall i :: 26 <= i < 52 ==> block[i] == 97 + (i - 26))
    && (forall i :: 52 <= i < 62 ==> block[i] == 48 + (i - 52))
    && block[62] == 0x80 && block[63] == 0
  }

  lemma Words0To3(block: seq<byte>)
    requires Alphabet(block)
    ensures Words(block)[0] == 0x44434241
    ensures Words(block)[1] == 0x48474645
    ensures Words(block)[2] == 0x4C4B4A49
    ensures Words(block)[3] == 0x504F4E4D
  {
    hide Words;
    WordOf(block, 0, 65, 66, 67, 68);
    WordOf(block, 1, 69, 70, 71, 72);
    WordOf(block, 2, 73, 74, 75, 76);
    WordOf(block, 3, 77, 78, 79, 80);
  }

  lemma Words4To7(block: seq<byte>)
    requires Alphabet(block)
    ensures Words(block)[4] == 0x54535251
    ensures Words(block)[5] == 0x58575655
    ensures Words(block)[6] == 0x62615A59
    ensures Words(block)[7] == 0x66656463
  {
    hide Words;
    WordOf(block, 4, 81, 82, 83, 84);
    WordOf(block, 5, 85, 86, 87, 88);
    WordOf(block, 6, 89, 90, 97, 98);
    WordOf(block, 7, 99, 100, 101, 102);
  }

  lemma Words8To11(block: seq<byte>)
    requires Alphabet(block)
    ensures Words(block)[8] == 0x6A696867
    ensures Words(block)[9] == 0x6E6D6C6B
    ensures Words(block)[10] == 0x7271706F
    ensures Words(block)[11] == 0x76757473
  {
    hide Words;
    WordOf(block, 8, 103, 104, 105, 106);
    WordOf(block, 9, 107, 108, 109, 110);
    WordOf(block, 10, 111, 112, 113, 114);
    WordOf(block, 11, 115, 116, 117, 118);
  }

  lemma Words12To15(block: seq<byte>)
    requires Alphabet(block)
    ensures Words(block)[12] == 0x7A797877
    ensures Words(block)[13] == 0x33323130
    ensures Words(block)[14] == 0x37363534
    ensures Words(block)[15] == 0x00803938
  {
    hide Words;
    WordOf(block, 12, 119, 120, 121, 122);
    WordOf(block, 13, 48, 49, 50, 51);
    WordOf(block, 14, 52, 53, 54, 55);
    WordOf(block, 15, 56, 57, 128, 0);
  }

  lemma Upper(s: seq<byte>)
    requires s == Ascii("ABCDEFGHIJKLMNOPQRSTUVWXYZ")
    ensures |s| == 26 && forall i :: 0 <= i < 26 ==> s[i] == 65 + i
  {
  }

  lemma Lower(s: seq<byte>)
    requires s == Ascii("abcdefghijklmnopqrstuvwxyz")
    ensures |s| == 26 && forall i :: 0 <= i < 26 ==> s[i] == 97 + i
  {
  }

  lemma Digits(s: seq<byte>)
    requires s == Ascii("0123456789")
    ensures |s| == 10 && forall i :: 0 <= i < 10 ==> s[i] == 48 + i
  {
  }

  lemma FirstBlock(m: seq<byte>)
    requires m == Ascii("ABCDEFGHIJKLMNOPQRSTUVWXYZ") + Ascii("abcdefghijklmnopqrstuvwxyz") + Ascii("0123456789")
    ensures |m| == 62 && |m + Padding(|m|)| == 128 && FirstWords(Words((m + Padding(|m|))[..64]))
  {
    hide Words, LengthBytes, Ascii;
    Upper(Ascii("ABCDEFGHIJKLMNOPQRSTUVWXYZ"));
    Lower(Ascii("abcdefghijklmnopqrstuvwxyz"));
    Digits(Ascii("0123456789"));
    var block := (m + Padding(|m|))[..64];
    assert block == m + [0x80, 0];
    Words0To3(block);
    Words4To7(block);
    Words8To11(block);
    Words12To15(block);
  }

  lemma SecondBlock(m: seq<byte>)
    requires |m| == 62
    ensures |m + Padding(|m|)| == 128 && SecondWords(Words((m + Padding(|m|))[64..]))
  {
    hide Words;
    var block := (m + Padding(|m|))[64..];
    assert LengthBytes(496) == [0xF0, 1] + Zeros(6);
    assert forall i :: 0 <= i < 64 ==> block[i] == if i == 56 then 0xF0 else if i == 57 then 1 else 0;
    WordOf(block, 14, 0xF0, 1, 0, 0);
    forall k | 0 <= k < 16 && k != 14
      ensures Words(block)[k] == 0
    {
      ZeroWord(block, k);
    }
  }

  /** Two blocks, one after the other. */
  lemma TwoBlocks(m: seq<byte>)
    requires |m| == 128
    ensures Blocks(m[..64]) == AddQuads(INITIAL, Operations(INITIAL, Words(m[..64]), 64))
    ensures Blocks(m) == AddQuads(Blocks(m[..64]), Operations(Blocks(m[..64]), Words(m[64..]), 64))
  {
    hide Operations, Words, AddQuads;
    OneBlock(m[..64]);
  }

  // ---------------------------------------------------------------- the answer

  lemma TextA(x: bv32)
    requires x == 0x98AB74D1
    ensures HexText(Split(x)) == Ascii("d174ab98")
  {
    TextOfWord(x, 0xD1, 0x74, 0xAB, 0x98, "d174ab98");
  }

  lemma TextB(x: bv32)
    requires x == 0xF5D977D2
    ensures HexText(Split(x)) == Ascii("d277d9f5")
  {
    TextOfWord(x, 0xD2, 0x77, 0xD9, 0xF5, "d277d9f5");
  }

  lemma TextC(x: bv32)
    requires x == 0x2C1C61A5
    ensures HexText(Split(x)) == Ascii("a5611c2c")
  {
    TextOfWord(x, 0xA5, 0x61, 0x1C, 0x2C, "a5611c2c");
  }

  lemma TextD(x: bv32)
    requires x == 0x9F9D419F
    ensures HexText(Split(x)) == Ascii("9f419d9f")
  {
    TextOfWord(x, 0x9F, 0x41, 0x9D, 0x9F, "9f419d9f");
  }

  lemma AlphabetText(q: Quad)
    requires q == Quad(0x98AB74D1, 0xF5D977D2, 0x2C1C61A5, 0x9F9D419F)
    ensures HexText(Output(q)) == Ascii("d174ab98d277d9f5a5611c2c9f419d9f")
  {
    hide HexText, Split, Output;
    TextOfWords(q);
    TextA(q.a);
    TextB(q.b);
    TextC(q.c);
    TextD(q.d);
    assert "d174ab98" + "d277d9f5" + "a5611c2c" + "9f419d9f" == "d174ab98d277d9f5a5611c2c9f419d9f";
  }

  /** MD5 ("ABCDEFGHIJKLMNOPQRSTUVWXYZabcdefghijklmnopqrstuvwxyz0123456789") */
  lemma AlphabetMessage(m: seq<byte>)
    requires m == Ascii("ABCDEFGHIJKLMNOPQRSTUVWXYZ") + Ascii("abcdefghijklmnopqrstuvwxyz") + Ascii("0123456789")
    ensures Md5Text(m) == Ascii("d174ab98d277d9f5a5611c2c9f419d9f")
  {
    hide Operations, Words, Padding, HexText, Output, FirstWords, SecondWords, Ascii, Blocks;
    var blocks := m + Padding(|m|);
    FirstBlock(m);
    SecondBlock(m);
    TwoBlocks(blocks);
    First(Words(blocks[..64]));
    Second(Blocks(blocks[..64]), Words(blocks[64..]));
    AlphabetText(Blocks(blocks));
  }
}
