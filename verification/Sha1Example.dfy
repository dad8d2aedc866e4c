/** The known answer for "abc", in stages over the schedule and the rounds (section 7.3 of RFC 3174). */
module Sha1Example {
  import opened Sha1Spec
  import Object = Sha1

  const ABC: seq<byte> := [0x61, 0x62, 0x63]

  // Word u of the message schedule of a block.
  function Word(block: seq<byte>, u: nat): bv32
    requires |block| == 64 && u < 80
  {
    Schedule(block, 80)[u]
  }

  lemma {:induction false} EarlierWords(block: seq<byte>, t: nat, u: nat)
    requires |block| == 64 && u < t <= 80
    ensures Schedule(block, t)[u] == Word(block, u)
    decreases 80 - t
  {
    if t < 80 {
      EarlierWords(block, t + 1, u);
      assert Schedule(block, t + 1)[u] == Schedule(block, t)[u];
    }
  }

  lemma FirstWord(block: seq<byte>, u: nat)
    requires |block| == 64 && u < 16
    ensures Word(block, u) == BigEndian(block[4 * u], block[4 * u + 1], block[4 * u + 2], block[4 * u + 3])
  {
    hide BigEndian, Mix;
    EarlierWords(block, u + 1, u);
  }

  lemma LaterWord(block: seq<byte>, u: nat)
    requires |block| == 64 && 16 <= u < 80
    ensures Word(block, u) == Mix(Word(block, u - 3), Word(block, u - 8), Word(block, u - 14), Word(block, u - 16))
  {
    hide BigEndian, Mix;
    EarlierWords(block, u + 1, u);
    EarlierWords(block, u, u - 3);
    EarlierWords(block, u, u - 8);
    EarlierWords(block, u, u - 14);
    EarlierWords(block, u, u - 16);
  }

  // Eight words of a schedule.
  predicate Words8(block: seq<byte>, from: nat, words: seq<bv32>)
    requires |block| == 64 && from <= 72 && |words| == 8
  {
    forall u :: from <= u < from + 8 ==> Word(block, u) == words[u - from]
  }

  lemma NextWord(block: seq<byte>, u: nat, w3: bv32, w8: bv32, w14: bv32, w16: bv32, w: bv32)
    requires |block| == 64 && 16 <= u < 80 && Mix(w3, w8, w14, w16) == w
    requires Word(block, u - 3) == w3 && Word(block, u - 8) == w8 && Word(block, u - 14) == w14 && Word(block, u - 16) == w16
    ensures Word(block, u) == w
  {
    LaterWord(block, u);
    hide Mix, Word;
  }

  lemma NextRound(block: seq<byte>, t: nat, w: bv32, s: Chain)
    requires |block| == 64 && t < 80 && Word(block, t) == w && Rounds(Schedule(block, 80), INITIAL, t) == s
    ensures Rounds(Schedule(block, 80), INITIAL, t + 1) == Round(t, w, s)
  {
    hide Round;
  }

  const WORDS_0: seq<bv32> := [0x61626380, 0x00000000, 0x00000000, 0x00000000, 0x00000000, 0x00000000, 0x00000000, 0x00000000]
  const WORDS_1: seq<bv32> := [0x00000000, 0x00000000, 0x00000000, 0x00000000, 0x00000000, 0x00000000, 0x00000000, 0x00000018]
  const WORDS_2: seq<bv32> := [0xC2C4C700, 0x00000000, 0x00000030, 0x85898E01, 0x00000000, 0x00000060, 0x0B131C03, 0x00000030]
  const WORDS_3: seq<bv32> := [0x85898EC1, 0x16263806, 0x00000000, 0x00000180, 0x2C4C700C, 0x000000F0, 0x93AFB507, 0x5898E048]
  const WORDS_4: seq<bv32> := [0x8E9A9202, 0x00000600, 0xB131C0F0, 0x16263BC6, 0x4EBED41E, 0x626380A1, 0x16263806, 0x000018C0]
  const WORDS_5: seq<bv32> := [0xD2E138C4, 0x00000F00, 0x3AFB5079, 0x898E04E5, 0xE2BA3C2B, 0x000060C0, 0x053A37CD, 0x74458547]
  const WORDS_6: seq<bv32> := [0xDA9415ED, 0x26380A16, 0x626383A1, 0x4EBF54DE, 0x3835B44B, 0x0000F600, 0x1E84C7A3, 0x98E04D98]
  const WORDS_7: seq<bv32> := [0x651D16A0, 0x62658CA1, 0x458544D6, 0x44584CB7, 0x7BA06619, 0x6380AEA2, 0x0AE55269, 0x627B49A1]
  const WORDS_8: seq<bv32> := [0x7CD45C9D, 0x000F0000, 0xFB50753A, 0xEC6765E8, 0xBA3C2BE2, 0x0060C000, 0x3A37CD05, 0x458546F4]
  const WORDS_9: seq<bv32> := [0xB8599DD6, 0x380A1A26, 0x01E02203, 0xE7CC3456, 0xE6E60B69, 0x00F60A00, 0x5795EF4F, 0x822E0879]

  const ABC_BLOCK: seq<byte> := ABC + [0x80] + Zeros(52) + [0, 0, 0, 0, 0, 0, 0, 24]

  lemma FirstWords()
    ensures Words8(ABC_BLOCK, 0, WORDS_0)
  {
    forall u | 0 <= u < 8 ensures Word(ABC_BLOCK, u) == WORDS_0[u] {
      FirstWord(ABC_BLOCK, u);
    }
  }

  lemma SecondWords()
    ensures Words8(ABC_BLOCK, 8, WORDS_1)
  {
    forall u | 8 <= u < 16 ensures Word(ABC_BLOCK, u) == WORDS_1[u - 8] {
      FirstWord(ABC_BLOCK, u);
    }
  }

  lemma Words16To23(block: seq<byte>)
    requires |block| == 64 && Words8(block, 0, WORDS_0) && Words8(block, 8, WORDS_1)
    ensures Words8(block, 16, WORDS_2)
  {
    hide Word;
    NextWord(block, 16, 0x00000000, 0x00000000, 0x00000000, 0x61626380, 0xC2C4C700);
    NextWord(block, 17, 0x00000000, 0x00000000, 0x00000000, 0x00000000, 0x00000000);
    NextWord(block, 18, 0x00000018, 0x00000000, 0x00000000, 0x00000000, 0x00000030);
    NextWord(block, 19, 0xC2C4C700, 0x00000000, 0x00000000, 0x00000000, 0x85898E01);
    NextWord(block, 20, 0x00000000, 0x00000000, 0x00000000, 0x00000000, 0x00000000);
    NextWord(block, 21, 0x00000030, 0x00000000, 0x00000000, 0x00000000, 0x00000060);
    NextWord(block, 22, 0x85898E01, 0x00000000, 0x00000000, 0x00000000, 0x0B131C03);
    NextWord(block, 23, 0x00000000, 0x00000018, 0x00000000, 0x00000000, 0x00000030);
  }

  lemma Words24To31(block: seq<byte>)
    requires |block| == 64 && Words8(block, 8, WORDS_1) && Words8(block, 16, WORDS_2)
    ensures Words8(block, 24, WORDS_3)
  {
    hide Word;
    NextWord(block, 24, 0x00000060, 0xC2C4C700, 0x00000000, 0x00000000, 0x85898EC1);
    NextWord(block, 25, 0x0B131C03, 0x00000000, 0x00000000, 0x00000000, 0x16263806);
    NextWord(block, 26, 0x00000030, 0x00000030, 0x00000000, 0x00000000, 0x00000000);
    NextWord(block, 27, 0x85898EC1, 0x85898E01, 0x00000000, 0x00000000, 0x00000180);
    NextWord(block, 28, 0x16263806, 0x00000000, 0x00000000, 0x00000000, 0x2C4C700C);
    NextWord(block, 29, 0x00000000, 0x00000060, 0x00000018, 0x00000000, 0x000000F0);
    NextWord(block, 30, 0x00000180, 0x0B131C03, 0xC2C4C700, 0x00000000, 0x93AFB507);
    NextWord(block, 31, 0x2C4C700C, 0x00000030, 0x00000000, 0x00000018, 0x5898E048);
  }

  lemma Words32To39(block: seq<byte>)
    requires |block| == 64 && Words8(block, 16, WORDS_2) && Words8(block, 24, WORDS_3)
    ensures Words8(block, 32, WORDS_4)
  {
    hide Word;
    NextWord(block, 32, 0x000000F0, 0x85898EC1, 0x00000030, 0xC2C4C700, 0x8E9A9202);
    NextWord(block, 33, 0x93AFB507, 0x16263806, 0x85898E01, 0x00000000, 0x00000600);
    NextWord(block, 34, 0x5898E048, 0x00000000, 0x00000000, 0x00000030, 0xB131C0F0);
    NextWord(block, 35, 0x8E9A9202, 0x00000180, 0x00000060, 0x85898E01, 0x16263BC6);
    NextWord(block, 36, 0x00000600, 0x2C4C700C, 0x0B131C03, 0x00000000, 0x4EBED41E);
    NextWord(block, 37, 0xB131C0F0, 0x000000F0, 0x00000030, 0x00000060, 0x626380A1);
    NextWord(block, 38, 0x16263BC6, 0x93AFB507, 0x85898EC1, 0x0B131C03, 0x16263806);
    NextWord(block, 39, 0x4EBED41E, 0x5898E048, 0x16263806, 0x00000030, 0x000018C0);
  }

  lemma Words40To47(block: seq<byte>)
    requires |block| == 64 && Words8(block, 24, WORDS_3) && Words8(block, 32, WORDS_4)
    ensures Words8(block, 40, WORDS_5)
  {
    hide Word;
    NextWord(block, 40, 0x626380A1, 0x8E9A9202, 0x00000000, 0x85898EC1, 0xD2E138C4);
    NextWord(block, 41, 0x16263806, 0x00000600, 0x00000180, 0x16263806, 0x00000F00);
    NextWord(block, 42, 0x000018C0, 0xB131C0F0, 0x2C4C700C, 0x00000000, 0x3AFB5079);
    NextWord(block, 43, 0xD2E138C4, 0x16263BC6, 0x000000F0, 0x00000180, 0x898E04E5);
    NextWord(block, 44, 0x00000F00, 0x4EBED41E, 0x93AFB507, 0x2C4C700C, 0xE2BA3C2B);
    NextWord(block, 45, 0x3AFB5079, 0x626380A1, 0x5898E048, 0x000000F0, 0x000060C0);
    NextWord(block, 46, 0x898E04E5, 0x16263806, 0x8E9A9202, 0x93AFB507, 0x053A37CD);
    NextWord(block, 47, 0xE2BA3C2B, 0x000018C0, 0x00000600, 0x5898E048, 0x74458547);
  }

  lemma Words48To55(block: seq<byte>)
    requires |block| == 64 && Words8(block, 32, WORDS_4) && Words8(block, 40, WORDS_5)
    ensures Words8(block, 48, WORDS_6)
  {
    hide Word;
    NextWord(block, 48, 0x000060C0, 0xD2E138C4, 0xB131C0F0, 0x8E9A9202, 0xDA9415ED);
    NextWord(block, 49, 0x053A37CD, 0x00000F00, 0x16263BC6, 0x00000600, 0x26380A16);
    NextWord(block, 50, 0x74458547, 0x3AFB5079, 0x4EBED41E, 0xB131C0F0, 0x626383A1);
    NextWord(block, 51, 0xDA9415ED, 0x898E04E5, 0x626380A1, 0x16263BC6, 0x4EBF54DE);
    NextWord(block, 52, 0x26380A16, 0xE2BA3C2B, 0x16263806, 0x4EBED41E, 0x3835B44B);
    NextWord(block, 53, 0x626383A1, 0x000060C0, 0x000018C0, 0x626380A1, 0x0000F600);
    NextWord(block, 54, 0x4EBF54DE, 0x053A37CD, 0xD2E138C4, 0x16263806, 0x1E84C7A3);
    NextWord(block, 55, 0x3835B44B, 0x74458547, 0x00000F00, 0x000018C0, 0x98E04D98);
  }

  lemma Words56To63(block: seq<byte>)
    requires |block| == 64 && Words8(block, 40, WORDS_5) && Words8(block, 48, WORDS_6)
    ensures Words8(block, 56, WORDS_7)
  {
    hide Word;
    NextWord(block, 56, 0x0000F600, 0xDA9415ED, 0x3AFB5079, 0xD2E138C4, 0x651D16A0);
    NextWord(block, 57, 0x1E84C7A3, 0x26380A16, 0x898E04E5, 0x00000F00, 0x62658CA1);
    NextWord(block, 58, 0x98E04D98, 0x626383A1, 0xE2BA3C2B, 0x3AFB5079, 0x458544D6);
    NextWord(block, 59, 0x651D16A0, 0x4EBF54DE, 0x000060C0, 0x898E04E5, 0x44584CB7);
    NextWord(block, 60, 0x62658CA1, 0x3835B44B, 0x053A37CD, 0xE2BA3C2B, 0x7BA06619);
    NextWord(block, 61, 0x458544D6, 0x0000F600, 0x74458547, 0x000060C0, 0x6380AEA2);
    NextWord(block, 62, 0x44584CB7, 0x1E84C7A3, 0xDA9415ED, 0x053A37CD, 0x0AE55269);
    NextWord(block, 63, 0x7BA06619, 0x98E04D98, 0x26380A16, 0x74458547, 0x627B49A1);
  }

  lemma Words64To71(block: seq<byte>)
    requires |block| == 64 && Words8(block, 48, WORDS_6) && Words8(block, 56, WORDS_7)
    ensures Words8(block, 64, WORDS_8)
  {
    hide Word;
    NextWord(block, 64, 0x6380AEA2, 0x651D16A0, 0x626383A1, 0xDA9415ED, 0x7CD45C9D);
    NextWord(block, 65, 0x0AE55269, 0x62658CA1, 0x4EBF54DE, 0x26380A16, 0x000F0000);
    NextWord(block, 66, 0x627B49A1, 0x458544D6, 0x3835B44B, 0x626383A1, 0xFB50753A);
    NextWord(block, 67, 0x7CD45C9D, 0x44584CB7, 0x0000F600, 0x4EBF54DE, 0xEC6765E8);
    NextWord(block, 68, 0x000F0000, 0x7BA06619, 0x1E84C7A3, 0x3835B44B, 0xBA3C2BE2);
    NextWord(block, 69, 0xFB50753A, 0x6380AEA2, 0x98E04D98, 0x0000F600, 0x0060C000);
    NextWord(block, 70, 0xEC6765E8, 0x0AE55269, 0x651D16A0, 0x1E84C7A3, 0x3A37CD05);
    NextWord(block, 71, 0xBA3C2BE2, 0x627B49A1, 0x62658CA1, 0x98E04D98, 0x458546F4);
  }

  lemma Words72To79(block: seq<byte>)
    requires |block| == 64 && Words8(block, 56, WORDS_7) && Words8(block, 64, WORDS_8)
    ensures Words8(block, 72, WORDS_9)
  {
    hide Word;
    NextWord(block, 72, 0x0060C000, 0x7CD45C9D, 0x458544D6, 0x651D16A0, 0xB8599DD6);
    NextWord(block, 73, 0x3A37CD05, 0x000F0000, 0x44584CB7, 0x62658CA1, 0x380A1A26);
    NextWord(block, 74, 0x458546F4, 0xFB50753A, 0x7BA06619, 0x458544D6, 0x01E02203);
    NextWord(block, 75, 0xB8599DD6, 0xEC6765E8, 0x6380AEA2, 0x44584CB7, 0xE7CC3456);
    NextWord(block, 76, 0x380A1A26, 0xBA3C2BE2, 0x0AE55269, 0x7BA06619, 0xE6E60B69);
    NextWord(block, 77, 0x01E02203, 0x0060C000, 0x627B49A1, 0x6380AEA2, 0x00F60A00);
    NextWord(block, 78, 0xE7CC3456, 0x3A37CD05, 0x7CD45C9D, 0x0AE55269, 0x5795EF4F);
    NextWord(block, 79, 0xE6E60B69, 0x458546F4, 0x000F0000, 0x627B49A1, 0x822E0879);
  }

  lemma Rounds0To7(block: seq<byte>)
    requires |block| == 64 && Words8(block, 0, WORDS_0)
    requires Rounds(Schedule(block, 80), INITIAL, 0) ==
             Chain(0x67452301, 0xEFCDAB89, 0x98BADCFE, 0x10325476, 0xC3D2E1F0)
    ensures Rounds(Schedule(block, 80), INITIAL, 8) ==
            Chain(0x9E8C07D4, 0x993E30C1, 0x0FF1F290, 0xB3F52677, 0xF3763846)
  {
    hide Word, Schedule, Rounds;
    NextRound(block, 0, 0x61626380, Chain(0x67452301, 0xEFCDAB89, 0x98BADCFE, 0x10325476, 0xC3D2E1F0));
    NextRound(block, 1, 0x00000000, Chain(0x0116FC33, 0x67452301, 0x7BF36AE2, 0x98BADCFE, 0x10325476));
    NextRound(block, 2, 0x00000000, Chain(0x8990536D, 0x0116FC33, 0x59D148C0, 0x7BF36AE2, 0x98BADCFE));
    NextRound(block, 3, 0x00000000, Chain(0xA1390F08, 0x8990536D, 0xC045BF0C, 0x59D148C0, 0x7BF36AE2));
    NextRound(block, 4, 0x00000000, Chain(0xCDD8E11B, 0xA1390F08, 0x626414DB, 0xC045BF0C, 0x59D148C0));
    NextRound(block, 5, 0x00000000, Chain(0xCFD499DE, 0xCDD8E11B, 0x284E43C2, 0x626414DB, 0xC045BF0C));
    NextRound(block, 6, 0x00000000, Chain(0x3FC7CA40, 0xCFD499DE, 0xF3763846, 0x284E43C2, 0x626414DB));
    NextRound(block, 7, 0x00000000, Chain(0x993E30C1, 0x3FC7CA40, 0xB3F52677, 0xF3763846, 0x284E43C2));
  }

  lemma Rounds8To15(block: seq<byte>)
    requires |block| == 64 && Words8(block, 8, WORDS_1)
    requires Rounds(Schedule(block, 80), INITIAL, 8) ==
             Chain(0x9E8C07D4, 0x993E30C1, 0x0FF1F290, 0xB3F52677, 0xF3763846)
    ensures Rounds(Schedule(block, 80), INITIAL, 16) ==
            Chain(0x20BDD62F, 0x196BEE77, 0x644A3DA5, 0x1181ED99, 0x18C623F9)
  {
    hide Word, Schedule, Rounds;
    NextRound(block, 8, 0x00000000, Chain(0x9E8C07D4, 0x993E30C1, 0x0FF1F290, 0xB3F52677, 0xF3763846));
    NextRound(block, 9, 0x00000000, Chain(0x4B6AE328, 0x9E8C07D4, 0x664F8C30, 0x0FF1F290, 0xB3F52677));
    NextRound(block, 10, 0x00000000, Chain(0x8351F929, 0x4B6AE328, 0x27A301F5, 0x664F8C30, 0x0FF1F290));
    NextRound(block, 11, 0x00000000, Chain(0xFBDA9E89, 0x8351F929, 0x12DAB8CA, 0x27A301F5, 0x664F8C30));
    NextRound(block, 12, 0x00000000, Chain(0x63188FE4, 0xFBDA9E89, 0x60D47E4A, 0x12DAB8CA, 0x27A301F5));
    NextRound(block, 13, 0x00000000, Chain(0x4607B664, 0x63188FE4, 0x7EF6A7A2, 0x60D47E4A, 0x12DAB8CA));
    NextRound(block, 14, 0x00000000, Chain(0x9128F695, 0x4607B664, 0x18C623F9, 0x7EF6A7A2, 0x60D47E4A));
    NextRound(block, 15, 0x00000018, Chain(0x196BEE77, 0x9128F695, 0x1181ED99, 0x18C623F9, 0x7EF6A7A2));
  }

  lemma Rounds16To23(block: seq<byte>)
    requires |block| == 64 && Words8(block, 16, WORDS_2)
    requires Rounds(Schedule(block, 80), INITIAL, 16) ==
             Chain(0x20BDD62F, 0x196BEE77, 0x644A3DA5, 0x1181ED99, 0x18C623F9)
    ensures Rounds(Schedule(block, 80), INITIAL, 24) ==
            Chain(0xD541F12D, 0x21283486, 0x0CE88EFF, 0x868DEC32, 0x7F67875F)
  {
    hide Word, Schedule, Rounds;
    NextRound(block, 16, 0xC2C4C700, Chain(0x20BDD62F, 0x196BEE77, 0x644A3DA5, 0x1181ED99, 0x18C623F9));
    NextRound(block, 17, 0x00000000, Chain(0x4E925823, 0x20BDD62F, 0xC65AFB9D, 0x644A3DA5, 0x1181ED99));
    NextRound(block, 18, 0x00000030, Chain(0x82AA6728, 0x4E925823, 0xC82F758B, 0xC65AFB9D, 0x644A3DA5));
    NextRound(block, 19, 0x85898E01, Chain(0xDC64901D, 0x82AA6728, 0xD3A49608, 0xC82F758B, 0xC65AFB9D));
    NextRound(block, 20, 0x00000000, Chain(0xFD9E1D7D, 0xDC64901D, 0x20AA99CA, 0xD3A49608, 0xC82F758B));
    NextRound(block, 21, 0x00000060, Chain(0x1A37B0CA, 0xFD9E1D7D, 0x77192407, 0x20AA99CA, 0xD3A49608));
    NextRound(block, 22, 0x0B131C03, Chain(0x33A23BFC, 0x1A37B0CA, 0x7F67875F, 0x77192407, 0x20AA99CA));
    NextRound(block, 23, 0x00000030, Chain(0x21283486, 0x33A23BFC, 0x868DEC32, 0x7F67875F, 0x77192407));
  }

  lemma Rounds24To31(block: seq<byte>)
    requires |block| == 64 && Words8(block, 24, WORDS_3)
    requires Rounds(Schedule(block, 80), INITIAL, 24) ==
             Chain(0xD541F12D, 0x21283486, 0x0CE88EFF, 0x868DEC32, 0x7F67875F)
    ensures Rounds(Schedule(block, 80), INITIAL, 32) ==
            Chain(0x3B845D33, 0x1267B407, 0x717EEBD7, 0xA0DC2D4B, 0xD2AA1365)
  {
    hide Word, Schedule, Rounds;
    NextRound(block, 24, 0x85898EC1, Chain(0xD541F12D, 0x21283486, 0x0CE88EFF, 0x868DEC32, 0x7F67875F));
    NextRound(block, 25, 0x16263806, Chain(0xC7567DC6, 0xD541F12D, 0x884A0D21, 0x0CE88EFF, 0x868DEC32));
    NextRound(block, 26, 0x00000000, Chain(0x48413BA4, 0xC7567DC6, 0x75507C4B, 0x884A0D21, 0x0CE88EFF));
    NextRound(block, 27, 0x00000180, Chain(0xBE35FBD5, 0x48413BA4, 0xB1D59F71, 0x75507C4B, 0x884A0D21));
    NextRound(block, 28, 0x2C4C700C, Chain(0x4AA84D97, 0xBE35FBD5, 0x12104EE9, 0xB1D59F71, 0x75507C4B));
    NextRound(block, 29, 0x000000F0, Chain(0x8370B52E, 0x4AA84D97, 0x6F8D7EF5, 0x12104EE9, 0xB1D59F71));
    NextRound(block, 30, 0x93AFB507, Chain(0xC5FBAF5D, 0x8370B52E, 0xD2AA1365, 0x6F8D7EF5, 0x12104EE9));
    NextRound(block, 31, 0x5898E048, Chain(0x1267B407, 0xC5FBAF5D, 0xA0DC2D4B, 0xD2AA1365, 0x6F8D7EF5));
  }

  lemma Rounds32To39(block: seq<byte>)
    requires |block| == 64 && Words8(block, 32, WORDS_4)
    requires Rounds(Schedule(block, 80), INITIAL, 32) ==
             Chain(0x3B845D33, 0x1267B407, 0x717EEBD7, 0xA0DC2D4B, 0xD2AA1365)
    ensures Rounds(Schedule(block, 80), INITIAL, 40) ==
            Chain(0x32DE1CBA, 0x4C986405, 0xF718E5CF, 0x03D447F6, 0xF72EEC32)
  {
    hide Word, Schedule, Rounds;
    NextRound(block, 32, 0x8E9A9202, Chain(0x3B845D33, 0x1267B407, 0x717EEBD7, 0xA0DC2D4B, 0xD2AA1365));
    NextRound(block, 33, 0x00000600, Chain(0x046FAA0A, 0x3B845D33, 0xC499ED01, 0x717EEBD7, 0xA0DC2D4B));
    NextRound(block, 34, 0xB131C0F0, Chain(0x2C0EBC11, 0x046FAA0A, 0xCEE1174C, 0xC499ED01, 0x717EEBD7));
    NextRound(block, 35, 0x16263BC6, Chain(0x21796AD4, 0x2C0EBC11, 0x811BEA82, 0xCEE1174C, 0xC499ED01));
    NextRound(block, 36, 0x4EBED41E, Chain(0xDCBBB0CB, 0x21796AD4, 0x4B03AF04, 0x811BEA82, 0xCEE1174C));
    NextRound(block, 37, 0x626380A1, Chain(0x0F511FD8, 0xDCBBB0CB, 0x085E5AB5, 0x4B03AF04, 0x811BEA82));
    NextRound(block, 38, 0x16263806, Chain(0xDC63973F, 0x0F511FD8, 0xF72EEC32, 0x085E5AB5, 0x4B03AF04));
    NextRound(block, 39, 0x000018C0, Chain(0x4C986405, 0xDC63973F, 0x03D447F6, 0xF72EEC32, 0x085E5AB5));
  }

  lemma Rounds40To47(block: seq<byte>)
    requires |block| == 64 && Words8(block, 40, WORDS_5)
    requires Rounds(Schedule(block, 80), INITIAL, 40) ==
             Chain(0x32DE1CBA, 0x4C986405, 0xF718E5CF, 0x03D447F6, 0xF72EEC32)
    ensures Rounds(Schedule(block, 80), INITIAL, 48) ==
            Chain(0xBEAD02CA, 0xA01B846C, 0x8714787C, 0x503CA382, 0xFB86C6AB)
  {
    hide Word, Schedule, Rounds;
    NextRound(block, 40, 0xD2E138C4, Chain(0x32DE1CBA, 0x4C986405, 0xF718E5CF, 0x03D447F6, 0xF72EEC32));
    NextRound(block, 41, 0x00000F00, Chain(0xFC87DEDF, 0x32DE1CBA, 0x53261901, 0xF718E5CF, 0x03D447F6));
    NextRound(block, 42, 0x3AFB5079, Chain(0x970A0D5C, 0xFC87DEDF, 0x8CB7872E, 0x53261901, 0xF718E5CF));
    NextRound(block, 43, 0x898E04E5, Chain(0x7F193DC5, 0x970A0D5C, 0xFF21F7B7, 0x8CB7872E, 0x53261901));
    NextRound(block, 44, 0xE2BA3C2B, Chain(0xEE1B1AAF, 0x7F193DC5, 0x25C28357, 0xFF21F7B7, 0x8CB7872E));
    NextRound(block, 45, 0x000060C0, Chain(0x40F28E09, 0xEE1B1AAF, 0x5FC64F71, 0x25C28357, 0xFF21F7B7));
    NextRound(block, 46, 0x053A37CD, Chain(0x1C51E1F2, 0x40F28E09, 0xFB86C6AB, 0x5FC64F71, 0x25C28357));
    NextRound(block, 47, 0x74458547, Chain(0xA01B846C, 0x1C51E1F2, 0x503CA382, 0xFB86C6AB, 0x5FC64F71));
  }

  lemma Rounds48To55(block: seq<byte>)
    requires |block| == 64 && Words8(block, 48, WORDS_6)
    requires Rounds(Schedule(block, 80), INITIAL, 48) ==
             Chain(0xBEAD02CA, 0xA01B846C, 0x8714787C, 0x503CA382, 0xFB86C6AB)
    ensures Rounds(Schedule(block, 80), INITIAL, 56) ==
            Chain(0x5E6456AF, 0x7B71F76D, 0x09FA7C76, 0x792410DB, 0x8E11EB59)
  {
    hide Word, Schedule, Rounds;
    NextRound(block, 48, 0xDA9415ED, Chain(0xBEAD02CA, 0xA01B846C, 0x8714787C, 0x503CA382, 0xFB86C6AB));
    NextRound(block, 49, 0x26380A16, Chain(0xBAF39337, 0xBEAD02CA, 0x2806E11B, 0x8714787C, 0x503CA382));
    NextRound(block, 50, 0x626383A1, Chain(0x120731C5, 0xBAF39337, 0xAFAB40B2, 0x2806E11B, 0x8714787C));
    NextRound(block, 51, 0x4EBF54DE, Chain(0x641DB2CE, 0x120731C5, 0xEEBCE4CD, 0xAFAB40B2, 0x2806E11B));
    NextRound(block, 52, 0x3835B44B, Chain(0x3847AD66, 0x641DB2CE, 0x4481CC71, 0xEEBCE4CD, 0xAFAB40B2));
    NextRound(block, 53, 0x0000F600, Chain(0xE490436D, 0x3847AD66, 0x99076CB3, 0x4481CC71, 0xEEBCE4CD));
    NextRound(block, 54, 0x1E84C7A3, Chain(0x27E9F1D8, 0xE490436D, 0x8E11EB59, 0x99076CB3, 0x4481CC71));
    NextRound(block, 55, 0x98E04D98, Chain(0x7B71F76D, 0x27E9F1D8, 0x792410DB, 0x8E11EB59, 0x99076CB3));
  }

  lemma Rounds56To63(block: seq<byte>)
    requires |block| == 64 && Words8(block, 56, WORDS_7)
    requires Rounds(Schedule(block, 80), INITIAL, 56) ==
             Chain(0x5E6456AF, 0x7B71F76D, 0x09FA7C76, 0x792410DB, 0x8E11EB59)
    ensures Rounds(Schedule(block, 80), INITIAL, 64) ==
            Chain(0x6B61C9E1, 0xB66C020B, 0x9523272C, 0xF5D5B051, 0x8FD4B796)
  {
    hide Word, Schedule, Rounds;
    NextRound(block, 56, 0x651D16A0, Chain(0x5E6456AF, 0x7B71F76D, 0x09FA7C76, 0x792410DB, 0x8E11EB59));
    NextRound(block, 57, 0x62658CA1, Chain(0xC846093F, 0x5E6456AF, 0x5EDC7DDB, 0x09FA7C76, 0x792410DB));
    NextRound(block, 58, 0x458544D6, Chain(0xD262FF50, 0xC846093F, 0xD79915AB, 0x5EDC7DDB, 0x09FA7C76));
    NextRound(block, 59, 0x44584CB7, Chain(0x09D785FD, 0xD262FF50, 0xF211824F, 0xD79915AB, 0x5EDC7DDB));
    NextRound(block, 60, 0x7BA06619, Chain(0x3F52DE5A, 0x09D785FD, 0x3498BFD4, 0xF211824F, 0xD79915AB));
    NextRound(block, 61, 0x6380AEA2, Chain(0xD756C147, 0x3F52DE5A, 0x4275E17F, 0x3498BFD4, 0xF211824F));
    NextRound(block, 62, 0x0AE55269, Chain(0x548C9CB2, 0xD756C147, 0x8FD4B796, 0x4275E17F, 0x3498BFD4));
    NextRound(block, 63, 0x627B49A1, Chain(0xB66C020B, 0x548C9CB2, 0xF5D5B051, 0x8FD4B796, 0x4275E17F));
  }

  lemma Rounds64To71(block: seq<byte>)
    requires |block| == 64 && Words8(block, 64, WORDS_8)
    requires Rounds(Schedule(block, 80), INITIAL, 64) ==
             Chain(0x6B61C9E1, 0xB66C020B, 0x9523272C, 0xF5D5B051, 0x8FD4B796)
    ensures Rounds(Schedule(block, 80), INITIAL, 72) ==
            Chain(0x39859DE7, 0xC199F8C7, 0x8FC96230, 0x125C24F0, 0xDE37534A)
  {
    hide Word, Schedule, Rounds;
    NextRound(block, 64, 0x7CD45C9D, Chain(0x6B61C9E1, 0xB66C020B, 0x9523272C, 0xF5D5B051, 0x8FD4B796));
    NextRound(block, 65, 0x000F0000, Chain(0x19DFA7AC, 0x6B61C9E1, 0xED9B0082, 0x9523272C, 0xF5D5B051));
    NextRound(block, 66, 0xFB50753A, Chain(0x101655F9, 0x19DFA7AC, 0x5AD87278, 0xED9B0082, 0x9523272C));
    NextRound(block, 67, 0xEC6765E8, Chain(0x0C3DF2B4, 0x101655F9, 0x0677E9EB, 0x5AD87278, 0xED9B0082));
    NextRound(block, 68, 0xBA3C2BE2, Chain(0x78DD4D2B, 0x0C3DF2B4, 0x4405957E, 0x0677E9EB, 0x5AD87278));
    NextRound(block, 69, 0x0060C000, Chain(0x497093C0, 0x78DD4D2B, 0x030F7CAD, 0x4405957E, 0x0677E9EB));
    NextRound(block, 70, 0x3A37CD05, Chain(0x3F2588C2, 0x497093C0, 0xDE37534A, 0x030F7CAD, 0x4405957E));
    NextRound(block, 71, 0x458546F4, Chain(0xC199F8C7, 0x3F2588C2, 0x125C24F0, 0xDE37534A, 0x030F7CAD));
  }

  lemma Rounds72To79(block: seq<byte>)
    requires |block| == 64 && Words8(block, 72, WORDS_9)
    requires Rounds(Schedule(block, 80), INITIAL, 72) ==
             Chain(0x39859DE7, 0xC199F8C7, 0x8FC96230, 0x125C24F0, 0xDE37534A)
    ensures Rounds(Schedule(block, 80), INITIAL, 80) ==
            Chain(0x42541B35, 0x5738D5E1, 0x21834873, 0x681E6DF6, 0xD8FDF6AD)
  {
    hide Word, Schedule, Rounds;
    NextRound(block, 72, 0xB8599DD6, Chain(0x39859DE7, 0xC199F8C7, 0x8FC96230, 0x125C24F0, 0xDE37534A));
    NextRound(block, 73, 0x380A1A26, Chain(0xEDB42DE4, 0x39859DE7, 0xF0667E31, 0x8FC96230, 0x125C24F0));
    NextRound(block, 74, 0x01E02203, Chain(0x11793F6F, 0xEDB42DE4, 0xCE616779, 0xF0667E31, 0x8FC96230));
    NextRound(block, 75, 0xE7CC3456, Chain(0x5EE76897, 0x11793F6F, 0x3B6D0B79, 0xCE616779, 0xF0667E31));
    NextRound(block, 76, 0xE6E60B69, Chain(0x63F7DAB7, 0x5EE76897, 0xC45E4FDB, 0x3B6D0B79, 0xCE616779));
    NextRound(block, 77, 0x00F60A00, Chain(0xA079B7D9, 0x63F7DAB7, 0xD7B9DA25, 0xC45E4FDB, 0x3B6D0B79));
    NextRound(block, 78, 0x5795EF4F, Chain(0x860D21CC, 0xA079B7D9, 0xD8FDF6AD, 0xD7B9DA25, 0xC45E4FDB));
    NextRound(block, 79, 0x822E0879, Chain(0x5738D5E1, 0x860D21CC, 0x681E6DF6, 0xD8FDF6AD, 0xD7B9DA25));
  }

  lemma AbcBlock()
    ensures Pad(ABC) == ABC_BLOCK
  {
    assert LengthField(24) == [0, 0, 0, 0, 0, 0, 0, 24];
  }

  // The first test of RFC 3174.
  lemma ShaOfAbc()
    ensures Sha1(ABC) == Chain(0xA9993E36, 0x4706816A, 0xBA3E2571, 0x7850C26C, 0x9CD0D89D)
  {
    hide Rounds, Schedule, Words8, Pad, HashBlocks, Sha1;
    var block := ABC_BLOCK;
    AbcBlock();
    OneBlock(ABC);
    FirstWords();
    SecondWords();
    Words16To23(block);
    Words24To31(block);
    Words32To39(block);
    Words40To47(block);
    Words48To55(block);
    Words56To63(block);
    Words64To71(block);
    Words72To79(block);
    NoRounds(block);
    Rounds0To7(block);
    Rounds8To15(block);
    Rounds16To23(block);
    Rounds24To31(block);
    Rounds32To39(block);
    Rounds40To47(block);
    Rounds48To55(block);
    Rounds56To63(block);
    Rounds64To71(block);
    Rounds72To79(block);
  }

  lemma DigestOfAbc()
    ensures Object.Words(Sha1([0x61, 0x62, 0x63])) == [0xA9993E36, 0x4706816A, 0xBA3E2571, 0x7850C26C, 0x9CD0D89D]
  {
    ShaOfAbc();
    hide Sha1;
  }

  lemma OneBlock(m: seq<byte>)
    requires |Pad(m)| == 64
    ensures Sha1(m) == Compress(INITIAL, Pad(m))
  {
    hide Pad, Compress;
    var block := Pad(m);
    assert block == block[..0] + block;
    HashBlocksAppend(block[..0], 0, block);
  }

  lemma NoRounds(block: seq<byte>)
    requires |block| == 64
    ensures Rounds(Schedule(block, 80), INITIAL, 0) == INITIAL
  {
  }
}
