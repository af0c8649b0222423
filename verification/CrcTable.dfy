/**
 The code table of crc24q.c as it is written out there.
 */
module CrcTable {
  import opened Bitwise
  import opened Crc24q
  import opened Words

  //////////////////////////////////////////////////////////////////////////////
  // The table
  //////////////////////////////////////////////////////////////////////////////

  // Eight words, and eight rows of them.
  datatype Row = Row(w0: bv64, w1: bv64, w2: bv64, w3: bv64, w4: bv64, w5: bv64, w6: bv64, w7: bv64)
  datatype Page = Page(r0: Row, r1: Row, r2: Row, r3: Row, r4: Row, r5: Row, r6: Row, r7: Row)

  function Page0(): Page
  {
    Page(
       Row(0x00000000, 0x01864CFB, 0x028AD50D, 0x030C99F6,
           0x0493E6E1, 0x0515AA1A, 0x061933EC, 0x079F7F17),
       Row(0x08A18139, 0x0927CDC2, 0x0A2B5434, 0x0BAD18CF,
           0x0C3267D8, 0x0DB42B23, 0x0EB8B2D5, 0x0F3EFE2E),
       Row(0x10C54E89, 0x11430272, 0x124F9B84, 0x13C9D77F,
           0x1456A868, 0x15D0E493, 0x16DC7D65, 0x175A319E),
       Row(0x1864CFB0, 0x19E2834B, 0x1AEE1ABD, 0x1B685646,
           0x1CF72951, 0x1D7165AA, 0x1E7DFC5C, 0x1FFBB0A7),
       Row(0x200CD1E9, 0x218A9D12, 0x228604E4, 0x2300481F,
           0x249F3708, 0x25197BF3, 0x2615E205, 0x2793AEFE),
       Row(0x28AD50D0, 0x292B1C2B, 0x2A2785DD, 0x2BA1C926,
           0x2C3EB631, 0x2DB8FACA, 0x2EB4633C, 0x2F322FC7),
       Row(0x30C99F60, 0x314FD39B, 0x32434A6D, 0x33C50696,
           0x345A7981, 0x35DC357A, 0x36D0AC8C, 0x3756E077),
       Row(0x38681E59, 0x39EE52A2, 0x3AE2CB54, 0x3B6487AF,
           0x3CFBF8B8, 0x3D7DB443, 0x3E712DB5, 0x3FF7614E))
  }

  function Page1(): Page
  {
    Page(
       Row(0x4019A3D2, 0x419FEF29, 0x429376DF, 0x43153A24,
           0x448A4533, 0x450C09C8, 0x4600903E, 0x4786DCC5),
       Row(0x48B822EB, 0x493E6E10, 0x4A32F7E6, 0x4BB4BB1D,
           0x4C2BC40A, 0x4DAD88F1, 0x4EA11107, 0x4F275DFC),
       Row(0x50DCED5B, 0x515AA1A0, 0x52563856, 0x53D074AD,
           0x544F0BBA, 0x55C94741, 0x56C5DEB7, 0x5743924C),
       Row(0x587D6C62, 0x59FB2099, 0x5AF7B96F, 0x5B71F594,
           0x5CEE8A83, 0x5D68C678, 0x5E645F8E, 0x5FE21375),
       Row(0x6015723B, 0x61933EC0, 0x629FA736, 0x6319EBCD,
           0x648694DA, 0x6500D821, 0x660C41D7, 0x678A0D2C),
       Row(0x68B4F302, 0x6932BFF9, 0x6A3E260F, 0x6BB86AF4,
           0x6C2715E3, 0x6DA15918, 0x6EADC0EE, 0x6F2B8C15),
       Row(0x70D03CB2, 0x71567049, 0x725AE9BF, 0x73DCA544,
           0x7443DA53, 0x75C596A8, 0x76C90F5E, 0x774F43A5),
       Row(0x7871BD8B, 0x79F7F170, 0x7AFB6886, 0x7B7D247D,
           0x7CE25B6A, 0x7D641791, 0x7E688E67, 0x7FEEC29C))
  }

  function Page2(): Page
  {
    Page(
       Row(0x803347A4, 0x81B50B5F, 0x82B992A9, 0x833FDE52,
           0x84A0A145, 0x8526EDBE, 0x862A7448, 0x87AC38B3),
       Row(0x8892C69D, 0x89148A66, 0x8A181390, 0x8B9E5F6B,
           0x8C01207C, 0x8D876C87, 0x8E8BF571, 0x8F0DB98A),
       Row(0x90F6092D, 0x917045D6, 0x927CDC20, 0x93FA90DB,
           0x9465EFCC, 0x95E3A337, 0x96EF3AC1, 0x9769763A),
       Row(0x98578814, 0x99D1C4EF, 0x9ADD5D19, 0x9B5B11E2,
           0x9CC46EF5, 0x9D42220E, 0x9E4EBBF8, 0x9FC8F703),
       Row(0xA03F964D, 0xA1B9DAB6, 0xA2B54340, 0xA3330FBB,
           0xA4AC70AC, 0xA52A3C57, 0xA626A5A1, 0xA7A0E95A),
       Row(0xA89E1774, 0xA9185B8F, 0xAA14C279, 0xAB928E82,
           0xAC0DF195, 0xAD8BBD6E, 0xAE872498, 0xAF016863),
       Row(0xB0FAD8C4, 0xB17C943F, 0xB2700DC9, 0xB3F64132,
           0xB4693E25, 0xB5EF72DE, 0xB6E3EB28, 0xB765A7D3),
       Row(0xB85B59FD, 0xB9DD1506, 0xBAD18CF0, 0xBB57C00B,
           0xBCC8BF1C, 0xBD4EF3E7, 0xBE426A11, 0xBFC426EA))
  }

  function Page3(): Page
  {
    Page(
       Row(0xC02AE476, 0xC1ACA88D, 0xC2A0317B, 0xC3267D80,
           0xC4B90297, 0xC53F4E6C, 0xC633D79A, 0xC7B59B61),
       Row(0xC88B654F, 0xC90D29B4, 0xCA01B042, 0xCB87FCB9,
           0xCC1883AE, 0xCD9ECF55, 0xCE9256A3, 0xCF141A58),
       Row(0xD0EFAAFF, 0xD169E604, 0xD2657FF2, 0xD3E33309,
           0xD47C4C1E, 0xD5FA00E5, 0xD6F69913, 0xD770D5E8),
       Row(0xD84E2BC6, 0xD9C8673D, 0xDAC4FECB, 0xDB42B230,
           0xDCDDCD27, 0xDD5B81DC, 0xDE57182A, 0xDFD154D1),
       Row(0xE026359F, 0xE1A07964, 0xE2ACE092, 0xE32AAC69,
           0xE4B5D37E, 0xE5339F85, 0xE63F0673, 0xE7B94A88),
       Row(0xE887B4A6, 0xE901F85D, 0xEA0D61AB, 0xEB8B2D50,
           0xEC145247, 0xED921EBC, 0xEE9E874A, 0xEF18CBB1),
       Row(0xF0E37B16, 0xF16537ED, 0xF269AE1B, 0xF3EFE2E0,
           0xF4709DF7, 0xF5F6D10C, 0xF6FA48FA, 0xF77C0401),
       Row(0xF842FA2F, 0xF9C4B6D4, 0xFAC82F22, 0xFB4E63D9,
           0xFCD11CCE, 0xFD575035, 0xFE5BC9C3, 0xFFDD8538))
  }

  function WordOf(r: Row, j: nat): bv64
    requires j < 8
  {
    match j
    case 0 => r.w0 case 1 => r.w1 case 2 => r.w2 case 3 => r.w3
    case 4 => r.w4 case 5 => r.w5 case 6 => r.w6 case _ => r.w7
  }

  function RowOf(p: Page, j: nat): Row
    requires j < 8
  {
    match j
    case 0 => p.r0 case 1 => p.r1 case 2 => p.r2 case 3 => p.r3
    case 4 => p.r4 case 5 => p.r5 case 6 => p.r6 case _ => p.r7
  }

  function PageOf(j: nat): Page
    requires j < 4
  {
    match j
    case 0 => Page0() case 1 => Page1() case 2 => Page2() case _ => Page3()
  }

  // A row, and a page, with c added to every word.
  function Plus(r: Row, c: bv64): Row
  {
    Row(Add(r.w0, c), Add(r.w1, c), Add(r.w2, c), Add(r.w3, c),
        Add(r.w4, c), Add(r.w5, c), Add(r.w6, c), Add(r.w7, c))
  }

  function PlusAll(p: Page, c: bv64): Page
  {
    Page(Plus(p.r0, c), Plus(p.r1, c), Plus(p.r2, c), Plus(p.r3, c),
         Plus(p.r4, c), Plus(p.r5, c), Plus(p.r6, c), Plus(p.r7, c))
  }

  // Every page is the first one with its own first word added, and every row of the first
  // page likewise.
  lemma PageSums()
    ensures Page1() == PlusAll(Page0(), Page1().r0.w0)
    ensures Page2() == PlusAll(Page0(), Page2().r0.w0)
    ensures Page3() == PlusAll(Page0(), Page3().r0.w0)
  {
  }

  lemma RowSums()
    ensures var p := Page0();
      && p.r1 == Plus(p.r0, p.r1.w0) && p.r2 == Plus(p.r0, p.r2.w0) && p.r3 == Plus(p.r0, p.r3.w0)
      && p.r4 == Plus(p.r0, p.r4.w0) && p.r5 == Plus(p.r0, p.r5.w0) && p.r6 == Plus(p.r0, p.r6.w0)
      && p.r7 == Plus(p.r0, p.r7.w0)
  {
  }

  //////////////////////////////////////////////////////////////////////////////
  // Its words are the multiples of the generator
  //////////////////////////////////////////////////////////////////////////////

  const POLY: bv64 := 0x01864CFB

  ghost predicate IsWord(x: bv64, i: nat)
  {
    IsEntry(Value(x), i)
  }

  lemma FirstWord()
    ensures IsWord(0, 0) && IsWord(POLY, 1) && Value(POLY) == CRCPOLY
  {
    hide IsEntry, Value;
    FirstEntries();
    ValueHex(0);
    ValueHex(POLY);
  }

  // The word for 2i out of the word for i.
  lemma DoubledWord(h: bv64, g: bv64, i: nat, n: nat)
    requires IsWord(h, i) && h & 0x8000000000000000 == 0 && (g == h << 1 || g == (h << 1) ^ POLY)
    requires g >> 32 == 0 && TopByte(g) == n
    ensures IsWord(g, n)
  {
    hide TopByte, Value, IsMultiple, Xor;
    FirstWord();
    GeneratorIsMultiple();
    ValueDouble(h);
    ValueAdd(h << 1, POLY);
    MultipleDouble(Value(h));
    MultipleXor(2 * Value(h), CRCPOLY);
    ValueTop(g);
  }

  lemma LowPowers()
    ensures IsWord(0x01864CFB, 1) && IsWord(0x028AD50D, 2) && IsWord(0x0493E6E1, 4)
  {
    hide IsWord;
    FirstWord();
    DoubledWord(0x01864CFB, 0x028AD50D, 1, 2);
    DoubledWord(0x028AD50D, 0x0493E6E1, 2, 4);
  }

  lemma MiddlePowers()
    ensures IsWord(0x08A18139, 8) && IsWord(0x10C54E89, 16) && IsWord(0x200CD1E9, 32)
  {
    hide IsWord;
    LowPowers();
    DoubledWord(0x0493E6E1, 0x08A18139, 4, 8);
    DoubledWord(0x08A18139, 0x10C54E89, 8, 16);
    DoubledWord(0x10C54E89, 0x200CD1E9, 16, 32);
  }

  lemma HighPowers()
    ensures IsWord(0x4019A3D2, 64) && IsWord(0x803347A4, 128)
  {
    hide IsWord;
    MiddlePowers();
    DoubledWord(0x200CD1E9, 0x4019A3D2, 32, 64);
    DoubledWord(0x4019A3D2, 0x803347A4, 64, 128);
  }

  // The word for i + j out of those for i, a multiple of 2^k, and j, below 2^k.
  lemma SummedWord(v: bv64, w: bv64, q: nat, j: nat, k: nat)
    requires IsWord(v, q * Pow2(k)) && IsWord(w, j) && j < Pow2(k)
    ensures IsWord(Add(v, w), q * Pow2(k) + j)
  {
    hide Value, IsMultiple, Xor;
    ValueAdd(v, w);
    MultipleXor(Value(v), Value(w));
    XorTopByte(Value(v), Value(w));
    XorSplit(q, 0, 0, j, k);
    XorZero(q);
    XorZero(j);
  }

  lemma Summed(v: bv64, w: bv64, sum: bv64, q: nat, j: nat, k: nat)
    requires IsWord(v, q * Pow2(k)) && IsWord(w, j) && j < Pow2(k) && sum == Add(v, w)
    ensures IsWord(sum, q * Pow2(k) + j)
  {
    hide IsWord, Pow2;
    SummedWord(v, w, q, j, k);
  }

  lemma FirstRow(j: nat)
    requires j < 8
    ensures IsWord(WordOf(Page0().r0, j), j)
  {
    hide IsWord;
    assert Page0().r0 == Row(0x00000000, 0x01864CFB, 0x028AD50D, 0x030C99F6,
                             0x0493E6E1, 0x0515AA1A, 0x061933EC, 0x079F7F17);
    hide Page0;
    FirstWord();
    LowPowers();
    Pow2Values();
    Summed(0x028AD50D, 0x01864CFB, 0x030C99F6, 1, 1, 1);
    Summed(0x0493E6E1, 0x01864CFB, 0x0515AA1A, 1, 1, 2);
    Summed(0x0493E6E1, 0x028AD50D, 0x061933EC, 1, 2, 2);
    Summed(0x0493E6E1, 0x030C99F6, 0x079F7F17, 1, 3, 2);
  }

  lemma RowHead(r: nat)
    requires r < 8
    ensures IsWord(RowOf(Page0(), r).w0, 8 * r)
  {
    hide Page0, IsWord, RowOf;
    Heads();
    HeadOf(Page0(), r);
  }

  lemma HeadOf(p: Page, r: nat)
    requires IsWord(p.r0.w0, 0) && IsWord(p.r1.w0, 8) && IsWord(p.r2.w0, 16) && IsWord(p.r3.w0, 24)
    requires IsWord(p.r4.w0, 32) && IsWord(p.r5.w0, 40) && IsWord(p.r6.w0, 48) && IsWord(p.r7.w0, 56)
    requires r < 8
    ensures IsWord(RowOf(p, r).w0, 8 * r)
  {
    hide IsWord, RowOf;
    RowsOf(p);
    if r < 4 {
      assert r == 0 || r == 1 || r == 2 || r == 3;
    } else {
      assert r == 4 || r == 5 || r == 6 || r == 7;
    }
  }

  lemma RowsOf(p: Page)
    ensures RowOf(p, 0) == p.r0 && RowOf(p, 1) == p.r1 && RowOf(p, 2) == p.r2 && RowOf(p, 3) == p.r3
    ensures RowOf(p, 4) == p.r4 && RowOf(p, 5) == p.r5 && RowOf(p, 6) == p.r6 && RowOf(p, 7) == p.r7
  {
  }

  lemma Heads()
    ensures var p := Page0();
      && IsWord(p.r0.w0, 0) && IsWord(p.r1.w0, 8) && IsWord(p.r2.w0, 16) && IsWord(p.r3.w0, 24)
      && IsWord(p.r4.w0, 32) && IsWord(p.r5.w0, 40) && IsWord(p.r6.w0, 48) && IsWord(p.r7.w0, 56)
  {
    FirstHeads();
    hide Page0, IsWord;
    FirstWord();
    MiddlePowers();
    HeadSums();
  }

  lemma HeadSums()
    ensures IsWord(0x1864CFB0, 24) && IsWord(0x28AD50D0, 40) && IsWord(0x30C99F60, 48) && IsWord(0x38681E59, 56)
  {
    hide IsWord;
    MiddlePowers();
    Pow2Values();
    hide Pow2;
    Summed(0x10C54E89, 0x08A18139, 0x1864CFB0, 1, 8, 4);
    Summed(0x200CD1E9, 0x08A18139, 0x28AD50D0, 1, 8, 5);
    Summed(0x200CD1E9, 0x10C54E89, 0x30C99F60, 1, 16, 5);
    Summed(0x200CD1E9, 0x1864CFB0, 0x38681E59, 1, 24, 5);
  }

  lemma FirstHeads()
    ensures var p := Page0();
      && p.r0.w0 == 0 && p.r1.w0 == 0x08A18139 && p.r2.w0 == 0x10C54E89 && p.r3.w0 == 0x1864CFB0
      && p.r4.w0 == 0x200CD1E9 && p.r5.w0 == 0x28AD50D0 && p.r6.w0 == 0x30C99F60 && p.r7.w0 == 0x38681E59
  {
  }

  lemma PageHead(p: nat)
    requires p < 4
    ensures IsWord(PageOf(p).r0.w0, 64 * p)
  {
    hide IsWord;
    PageHeads();
    hide Page0, Page1, Page2, Page3;
    FirstWord();
    HighPowers();
    Pow2Values();
    Summed(0x803347A4, 0x4019A3D2, 0xC02AE476, 1, 64, 7);
  }

  lemma PageHeads()
    ensures Page0().r0.w0 == 0 && Page1().r0.w0 == 0x4019A3D2
    ensures Page2().r0.w0 == 0x803347A4 && Page3().r0.w0 == 0xC02AE476
  {
  }

  lemma PlusWord(r: Row, c: bv64, j: nat)
    requires j < 8
    ensures WordOf(Plus(r, c), j) == Add(WordOf(r, j), c)
  {
    hide Add;
  }

  lemma PlusRow(p: Page, c: bv64, r: nat)
    requires r < 8
    ensures RowOf(PlusAll(p, c), r) == Plus(RowOf(p, r), c)
  {
    hide Plus;
  }

  lemma RowSum(r: nat)
    requires r < 8
    ensures RowOf(Page0(), r) == Plus(Page0().r0, RowOf(Page0(), r).w0)
  {
    RowSums();
    var p := Page0();
    assert p.r0 == Plus(p.r0, p.r0.w0);
    hide Page0, Plus;
  }

  lemma PageSum(p: nat)
    requires p < 4
    ensures PageOf(p) == PlusAll(Page0(), PageOf(p).r0.w0)
  {
    PageSums();
    PageHeads();
    hide Page0, Page1, Page2, Page3;
    PlusNothing(Page0());
    hide PlusAll;
  }

  lemma PlusNothing(p: Page)
    ensures PlusAll(p, 0) == p
  {
  }

  lemma WordSum(p: nat, r: nat, j: nat)
    requires p < 4 && r < 8 && j < 8
    ensures WordOf(RowOf(PageOf(p), r), j) ==
      Add(PageOf(p).r0.w0, Add(RowOf(Page0(), r).w0, WordOf(Page0().r0, j)))
  {
    hide *;
    var v, w := RowOf(Page0(), r).w0, PageOf(p).r0.w0;
    RowSum(r);
    PageSum(p);
    PlusRow(Page0(), w, r);
    PlusWord(RowOf(Page0(), r), w, j);
    PlusWord(Page0().r0, v, j);
    AddCommutes(WordOf(Page0().r0, j), v);
    AddCommutes(Add(v, WordOf(Page0().r0, j)), w);
  }

  lemma AddCommutes(a: bv64, b: bv64)
    ensures Add(a, b) == Add(b, a)
  {
  }

  // Digit by octal digit: the word in place j of row r of page p.
  lemma EveryWord(p: nat, r: nat, j: nat)
    requires p < 4 && r < 8 && j < 8
    ensures IsWord(WordOf(RowOf(PageOf(p), r), j), 64 * p + 8 * r + j)
  {
    hide *;
    WordSum(p, r, j);
    FirstRow(j);
    RowHead(r);
    PageHead(p);
    Pow2Values();
    SummedWord(RowOf(Page0(), r).w0, WordOf(Page0().r0, j), r, j, 3);
    SummedWord(PageOf(p).r0.w0, Add(RowOf(Page0(), r).w0, WordOf(Page0().r0, j)), p, 8 * r + j, 6);
  }

  // crc24q[i], as a number.
  function Entry(i: nat): nat
    requires i < 256
  {
    Value(WordOf(RowOf(PageOf(i / 64), i / 8 % 8), i % 8))
  }

  function CodeTable(): seq<nat>
  {
    seq(256, i requires 0 <= i < 256 => Entry(i))
  }

  // The table in the code is the one the generator makes.
  lemma CodeTableIsTable()
    ensures IsTable(CodeTable())
  {
    hide IsEntry, Entry;
    forall i | 0 <= i < 256 ensures IsEntry(CodeTable()[i], i) {
      EntryIsEntry(i);
    }
  }

  lemma EntryIsEntry(i: nat)
    requires i < 256
    ensures IsEntry(Entry(i), i)
  {
    hide IsEntry, PageOf, RowOf, WordOf, Value;
    EveryWord(i / 64, i / 8 % 8, i % 8);
    OctalDigits(i);
  }

  lemma OctalDigits(i: nat)
    ensures i == 64 * (i / 64) + 8 * (i / 8 % 8) + i % 8
  {
  }
}
