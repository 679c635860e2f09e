/** The answer the standard gives for its first example, "abc" (FIPS PUB 180-1, appendix A). */
module Sha1Answer {
  import opened Sha1Spec

  const ABC: seq<octet> := [0x61, 0x62, 0x63]

  /** The one block the message is padded to. */
  function Block(): (b: seq<octet>)
    ensures |b| == BLOCK_SIZE
  {
    ABC + [0x80] + Zeros(52) + [0, 0, 0, 0, 0, 0, 0, 24]
  }

  lemma PaddedIsBlock()
    ensures Pad(ABC) == Block()
  {
    assert LengthField(24) == [0, 0, 0, 0, 0, 0, 0, 24];
  }

  /** The first sixteen words of a block are those of the message. */
  predicate First(b: seq<octet>) {
    |b| == BLOCK_SIZE && W(b, 0) == 0x61626380 && W(b, 15) == 24 && forall t :: 0 < t < 15 ==> W(b, t) == 0
  }

  lemma BlockIsFirst(b: seq<octet>)
    requires b == Block()
    ensures First(b)
  {
  }

  /** A word of the schedule from the four it depends on. */
  lemma Word(b: seq<octet>, t: nat, w3: word, w8: word, w14: word, w16: word)
    requires |b| == BLOCK_SIZE && t >= 16
    requires W(b, t - 3) == w3 && W(b, t - 8) == w8 && W(b, t - 14) == w14 && W(b, t - 16) == w16
    ensures W(b, t) == S(1, Xor(w3, w8, w14, w16))
  {
  }

  /** A turn from the registers before it. */
  lemma Turn(m: seq<octet>, h: Regs, t: nat, a: word, b: word, c: word, d: word, e: word, w: word, x: word)
    requires |m| == BLOCK_SIZE && Rounds(m, h, t) == Regs(a, b, c, d, e) && W(m, t) == w
    requires (S(5, a) as int + F(t, b, c, d) as int + e as int + w as int + K(t) as int) % 0x1_0000_0000 == x as int
    ensures Rounds(m, h, t + 1) == Regs(x, a, S(30, b), c, d)
  {
    hide S, F, K, W;
    RoundsStep(m, h, t);
    Sum5(S(5, a), F(t, b, c, d), e, w, K(t));
  }

  lemma Sum5(s: word, f: word, e: word, w: word, k: word)
    ensures Plus5(s, f, e, w, k) as int == (s as int + f as int + e as int + w as int + k as int) % 0x1_0000_0000
  {
    hide Plus;
    var s2 := s as int + f as int;
    PlusMore(s, s as int, f);
    PlusMore(Plus(s, f), s2, e);
    PlusMore(Plus(Plus(s, f), e), s2 + e as int, w);
    PlusMore(Plus(Plus(Plus(s, f), e), w), s2 + e as int + w as int, k);
  }

  lemma PlusMore(x: word, sum: nat, y: word)
    requires x as int == sum % 0x1_0000_0000
    ensures Plus(x, y) as int == (sum + y as int) % 0x1_0000_0000
  {
    var q := sum / 0x1_0000_0000;
    assert sum + y as int == 0x1_0000_0000 * q + (x as int + y as int);
  }

  lemma Words23(b: seq<octet>)
    requires First(b)
    ensures W(b, 16) == 0xC2C4C700 && W(b, 17) == 0x00000000 && W(b, 18) == 0x00000030 && W(b, 19) == 0x85898E01
    ensures W(b, 20) == 0x00000000 && W(b, 21) == 0x00000060 && W(b, 22) == 0x0B131C03 && W(b, 23) == 0x00000030
  {
    hide W;
    Word(b, 16, 0x00000000, 0x00000000, 0x00000000, 0x61626380);
    Word(b, 17, 0x00000000, 0x00000000, 0x00000000, 0x00000000);
    Word(b, 18, 0x00000018, 0x00000000, 0x00000000, 0x00000000);
    Word(b, 19, 0xC2C4C700, 0x00000000, 0x00000000, 0x00000000);
    Word(b, 20, 0x00000000, 0x00000000, 0x00000000, 0x00000000);
    Word(b, 21, 0x00000030, 0x00000000, 0x00000000, 0x00000000);
    Word(b, 22, 0x85898E01, 0x00000000, 0x00000000, 0x00000000);
    Word(b, 23, 0x00000000, 0x00000018, 0x00000000, 0x00000000);
  }

  lemma Words31(b: seq<octet>)
    requires First(b)
    ensures W(b, 24) == 0x85898EC1 && W(b, 25) == 0x16263806 && W(b, 26) == 0x00000000 && W(b, 27) == 0x00000180
    ensures W(b, 28) == 0x2C4C700C && W(b, 29) == 0x000000F0 && W(b, 30) == 0x93AFB507 && W(b, 31) == 0x5898E048
  {
    hide W;
    Words23(b);
    Word(b, 24, 0x00000060, 0xC2C4C700, 0x00000000, 0x00000000);
    Word(b, 25, 0x0B131C03, 0x00000000, 0x00000000, 0x00000000);
    Word(b, 26, 0x00000030, 0x00000030, 0x00000000, 0x00000000);
    Word(b, 27, 0x85898EC1, 0x85898E01, 0x00000000, 0x00000000);
    Word(b, 28, 0x16263806, 0x00000000, 0x00000000, 0x00000000);
    Word(b, 29, 0x00000000, 0x00000060, 0x00000018, 0x00000000);
    Word(b, 30, 0x00000180, 0x0B131C03, 0xC2C4C700, 0x00000000);
    Word(b, 31, 0x2C4C700C, 0x00000030, 0x00000000, 0x00000018);
  }

  lemma Words39(b: seq<octet>)
    requires First(b)
    ensures W(b, 32) == 0x8E9A9202 && W(b, 33) == 0x00000600 && W(b, 34) == 0xB131C0F0 && W(b, 35) == 0x16263BC6
    ensures W(b, 36) == 0x4EBED41E && W(b, 37) == 0x626380A1 && W(b, 38) == 0x16263806 && W(b, 39) == 0x000018C0
  {
    hide W;
    Words23(b);
    Words31(b);
    Word(b, 32, 0x000000F0, 0x85898EC1, 0x00000030, 0xC2C4C700);
    Word(b, 33, 0x93AFB507, 0x16263806, 0x85898E01, 0x00000000);
    Word(b, 34, 0x5898E048, 0x00000000, 0x00000000, 0x00000030);
    Word(b, 35, 0x8E9A9202, 0x00000180, 0x00000060, 0x85898E01);
    Word(b, 36, 0x00000600, 0x2C4C700C, 0x0B131C03, 0x00000000);
    Word(b, 37, 0xB131C0F0, 0x000000F0, 0x00000030, 0x00000060);
    Word(b, 38, 0x16263BC6, 0x93AFB507, 0x85898EC1, 0x0B131C03);
    Word(b, 39, 0x4EBED41E, 0x5898E048, 0x16263806, 0x00000030);
  }

  lemma Words47(b: seq<octet>)
    requires First(b)
    ensures W(b, 40) == 0xD2E138C4 && W(b, 41) == 0x00000F00 && W(b, 42) == 0x3AFB5079 && W(b, 43) == 0x898E04E5
    ensures W(b, 44) == 0xE2BA3C2B && W(b, 45) == 0x000060C0 && W(b, 46) == 0x053A37CD && W(b, 47) == 0x74458547
  {
    hide W;
    Words31(b);
    Words39(b);
    Word(b, 40, 0x626380A1, 0x8E9A9202, 0x00000000, 0x85898EC1);
    Word(b, 41, 0x16263806, 0x00000600, 0x00000180, 0x16263806);
    Word(b, 42, 0x000018C0, 0xB131C0F0, 0x2C4C700C, 0x00000000);
    Word(b, 43, 0xD2E138C4, 0x16263BC6, 0x000000F0, 0x00000180);
    Word(b, 44, 0x00000F00, 0x4EBED41E, 0x93AFB507, 0x2C4C700C);
    Word(b, 45, 0x3AFB5079, 0x626380A1, 0x5898E048, 0x000000F0);
    Word(b, 46, 0x898E04E5, 0x16263806, 0x8E9A9202, 0x93AFB507);
    Word(b, 47, 0xE2BA3C2B, 0x000018C0, 0x00000600, 0x5898E048);
  }

  lemma Words55(b: seq<octet>)
    requires First(b)
    ensures W(b, 48) == 0xDA9415ED && W(b, 49) == 0x26380A16 && W(b, 50) == 0x626383A1 && W(b, 51) == 0x4EBF54DE
    ensures W(b, 52) == 0x3835B44B && W(b, 53) == 0x0000F600 && W(b, 54) == 0x1E84C7A3 && W(b, 55) == 0x98E04D98
  {
    hide W;
    Words39(b);
    Words47(b);
    Word(b, 48, 0x000060C0, 0xD2E138C4, 0xB131C0F0, 0x8E9A9202);
    Word(b, 49, 0x053A37CD, 0x00000F00, 0x16263BC6, 0x00000600);
    Word(b, 50, 0x74458547, 0x3AFB5079, 0x4EBED41E, 0xB131C0F0);
    Word(b, 51, 0xDA9415ED, 0x898E04E5, 0x626380A1, 0x16263BC6);
    Word(b, 52, 0x26380A16, 0xE2BA3C2B, 0x16263806, 0x4EBED41E);
    Word(b, 53, 0x626383A1, 0x000060C0, 0x000018C0, 0x626380A1);
    Word(b, 54, 0x4EBF54DE, 0x053A37CD, 0xD2E138C4, 0x16263806);
    Word(b, 55, 0x3835B44B, 0x74458547, 0x00000F00, 0x000018C0);
  }

  lemma Words63(b: seq<octet>)
    requires First(b)
    ensures W(b, 56) == 0x651D16A0 && W(b, 57) == 0x62658CA1 && W(b, 58) == 0x458544D6 && W(b, 59) == 0x44584CB7
    ensures W(b, 60) == 0x7BA06619 && W(b, 61) == 0x6380AEA2 && W(b, 62) == 0x0AE55269 && W(b, 63) == 0x627B49A1
  {
    hide W;
    Words47(b);
    Words55(b);
    Word(b, 56, 0x0000F600, 0xDA9415ED, 0x3AFB5079, 0xD2E138C4);
    Word(b, 57, 0x1E84C7A3, 0x26380A16, 0x898E04E5, 0x00000F00);
    Word(b, 58, 0x98E04D98, 0x626383A1, 0xE2BA3C2B, 0x3AFB5079);
    Word(b, 59, 0x651D16A0, 0x4EBF54DE, 0x000060C0, 0x898E04E5);
    Word(b, 60, 0x62658CA1, 0x3835B44B, 0x053A37CD, 0xE2BA3C2B);
    Word(b, 61, 0x458544D6, 0x0000F600, 0x74458547, 0x000060C0);
    Word(b, 62, 0x44584CB7, 0x1E84C7A3, 0xDA9415ED, 0x053A37CD);
    Word(b, 63, 0x7BA06619, 0x98E04D98, 0x26380A16, 0x74458547);
  }

  lemma Words71(b: seq<octet>)
    requires First(b)
    ensures W(b, 64) == 0x7CD45C9D && W(b, 65) == 0x000F0000 && W(b, 66) == 0xFB50753A && W(b, 67) == 0xEC6765E8
    ensures W(b, 68) == 0xBA3C2BE2 && W(b, 69) == 0x0060C000 && W(b, 70) == 0x3A37CD05 && W(b, 71) == 0x458546F4
  {
    hide W;
    Words55(b);
    Words63(b);
    Word(b, 64, 0x6380AEA2, 0x651D16A0, 0x626383A1, 0xDA9415ED);
    Word(b, 65, 0x0AE55269, 0x62658CA1, 0x4EBF54DE, 0x26380A16);
    Word(b, 66, 0x627B49A1, 0x458544D6, 0x3835B44B, 0x626383A1);
    Word(b, 67, 0x7CD45C9D, 0x44584CB7, 0x0000F600, 0x4EBF54DE);
    Word(b, 68, 0x000F0000, 0x7BA06619, 0x1E84C7A3, 0x3835B44B);
    Word(b, 69, 0xFB50753A, 0x6380AEA2, 0x98E04D98, 0x0000F600);
    Word(b, 70, 0xEC6765E8, 0x0AE55269, 0x651D16A0, 0x1E84C7A3);
    Word(b, 71, 0xBA3C2BE2, 0x627B49A1, 0x62658CA1, 0x98E04D98);
  }

  lemma Words79(b: seq<octet>)
    requires First(b)
    ensures W(b, 72) == 0xB8599DD6 && W(b, 73) == 0x380A1A26 && W(b, 74) == 0x01E02203 && W(b, 75) == 0xE7CC3456
    ensures W(b, 76) == 0xE6E60B69 && W(b, 77) == 0x00F60A00 && W(b, 78) == 0x5795EF4F && W(b, 79) == 0x822E0879
  {
    hide W;
    Words63(b);
    Words71(b);
    Word(b, 72, 0x0060C000, 0x7CD45C9D, 0x458544D6, 0x651D16A0);
    Word(b, 73, 0x3A37CD05, 0x000F0000, 0x44584CB7, 0x62658CA1);
    Word(b, 74, 0x458546F4, 0xFB50753A, 0x7BA06619, 0x458544D6);
    Word(b, 75, 0xB8599DD6, 0xEC6765E8, 0x6380AEA2, 0x44584CB7);
    Word(b, 76, 0x380A1A26, 0xBA3C2BE2, 0x0AE55269, 0x7BA06619);
    Word(b, 77, 0x01E02203, 0x0060C000, 0x627B49A1, 0x6380AEA2);
    Word(b, 78, 0xE7CC3456, 0x3A37CD05, 0x7CD45C9D, 0x0AE55269);
    Word(b, 79, 0xE6E60B69, 0x458546F4, 0x000F0000, 0x627B49A1);
  }

  lemma Turns0(b: seq<octet>, h: Regs)
    requires |b| == BLOCK_SIZE && h == H0()
    ensures Rounds(b, h, 0) == Regs(0x67452301, 0xEFCDAB89, 0x98BADCFE, 0x10325476, 0xC3D2E1F0)
  {
  }

  lemma Turns4(b: seq<octet>, h: Regs)
    requires First(b) && h == H0()
    ensures Rounds(b, h, 4) == Regs(0xCDD8E11B, 0xA1390F08, 0x626414DB, 0xC045BF0C, 0x59D148C0)
  {
    hide W, Rounds, H0;
    Turns0(b, h);
    Turn(b, h, 0, 0x67452301, 0xEFCDAB89, 0x98BADCFE, 0x10325476, 0xC3D2E1F0, 0x61626380, 0x0116FC33);
    Turn(b, h, 1, 0x0116FC33, 0x67452301, 0x7BF36AE2, 0x98BADCFE, 0x10325476, 0x00000000, 0x8990536D);
    Turn(b, h, 2, 0x8990536D, 0x0116FC33, 0x59D148C0, 0x7BF36AE2, 0x98BADCFE, 0x00000000, 0xA1390F08);
    Turn(b, h, 3, 0xA1390F08, 0x8990536D, 0xC045BF0C, 0x59D148C0, 0x7BF36AE2, 0x00000000, 0xCDD8E11B);
  }

  lemma Turns8(b: seq<octet>, h: Regs)
    requires First(b) && h == H0()
    ensures Rounds(b, h, 8) == Regs(0x9E8C07D4, 0x993E30C1, 0x0FF1F290, 0xB3F52677, 0xF3763846)
  {
    hide W, Rounds, H0;
    Turns4(b, h);
    Turn(b, h, 4, 0xCDD8E11B, 0xA1390F08, 0x626414DB, 0xC045BF0C, 0x59D148C0, 0x00000000, 0xCFD499DE);
    Turn(b, h, 5, 0xCFD499DE, 0xCDD8E11B, 0x284E43C2, 0x626414DB, 0xC045BF0C, 0x00000000, 0x3FC7CA40);
    Turn(b, h, 6, 0x3FC7CA40, 0xCFD499DE, 0xF3763846, 0x284E43C2, 0x626414DB, 0x00000000, 0x993E30C1);
    Turn(b, h, 7, 0x993E30C1, 0x3FC7CA40, 0xB3F52677, 0xF3763846, 0x284E43C2, 0x00000000, 0x9E8C07D4);
  }

  lemma Turns12(b: seq<octet>, h: Regs)
    requires First(b) && h == H0()
    ensures Rounds(b, h, 12) == Regs(0x63188FE4, 0xFBDA9E89, 0x60D47E4A, 0x12DAB8CA, 0x27A301F5)
  {
    hide W, Rounds, H0;
    Turns8(b, h);
    Turn(b, h, 8, 0x9E8C07D4, 0x993E30C1, 0x0FF1F290, 0xB3F52677, 0xF3763846, 0x00000000, 0x4B6AE328);
    Turn(b, h, 9, 0x4B6AE328, 0x9E8C07D4, 0x664F8C30, 0x0FF1F290, 0xB3F52677, 0x00000000, 0x8351F929);
    Turn(b, h, 10, 0x8351F929, 0x4B6AE328, 0x27A301F5, 0x664F8C30, 0x0FF1F290, 0x00000000, 0xFBDA9E89);
    Turn(b, h, 11, 0xFBDA9E89, 0x8351F929, 0x12DAB8CA, 0x27A301F5, 0x664F8C30, 0x00000000, 0x63188FE4);
  }

  lemma Turns16(b: seq<octet>, h: Regs)
    requires First(b) && h == H0()
    ensures Rounds(b, h, 16) == Regs(0x20BDD62F, 0x196BEE77, 0x644A3DA5, 0x1181ED99, 0x18C623F9)
  {
    hide W, Rounds, H0;
    Turns12(b, h);
    Turn(b, h, 12, 0x63188FE4, 0xFBDA9E89, 0x60D47E4A, 0x12DAB8CA, 0x27A301F5, 0x00000000, 0x4607B664);
    Turn(b, h, 13, 0x4607B664, 0x63188FE4, 0x7EF6A7A2, 0x60D47E4A, 0x12DAB8CA, 0x00000000, 0x9128F695);
    Turn(b, h, 14, 0x9128F695, 0x4607B664, 0x18C623F9, 0x7EF6A7A2, 0x60D47E4A, 0x00000000, 0x196BEE77);
    Turn(b, h, 15, 0x196BEE77, 0x9128F695, 0x1181ED99, 0x18C623F9, 0x7EF6A7A2, 0x00000018, 0x20BDD62F);
  }

  lemma Turns20(b: seq<octet>, h: Regs)
    requires First(b) && h == H0()
    ensures Rounds(b, h, 20) == Regs(0xFD9E1D7D, 0xDC64901D, 0x20AA99CA, 0xD3A49608, 0xC82F758B)
  {
    hide W, Rounds, H0;
    Turns16(b, h);
    Words23(b);
    Turn(b, h, 16, 0x20BDD62F, 0x196BEE77, 0x644A3DA5, 0x1181ED99, 0x18C623F9, 0xC2C4C700, 0x4E925823);
    Turn(b, h, 17, 0x4E925823, 0x20BDD62F, 0xC65AFB9D, 0x644A3DA5, 0x1181ED99, 0x00000000, 0x82AA6728);
    Turn(b, h, 18, 0x82AA6728, 0x4E925823, 0xC82F758B, 0xC65AFB9D, 0x644A3DA5, 0x00000030, 0xDC64901D);
    Turn(b, h, 19, 0xDC64901D, 0x82AA6728, 0xD3A49608, 0xC82F758B, 0xC65AFB9D, 0x85898E01, 0xFD9E1D7D);
  }

  lemma Turns24(b: seq<octet>, h: Regs)
    requires First(b) && h == H0()
    ensures Rounds(b, h, 24) == Regs(0xD541F12D, 0x21283486, 0x0CE88EFF, 0x868DEC32, 0x7F67875F)
  {
    hide W, Rounds, H0;
    Turns20(b, h);
    Words23(b);
    Turn(b, h, 20, 0xFD9E1D7D, 0xDC64901D, 0x20AA99CA, 0xD3A49608, 0xC82F758B, 0x00000000, 0x1A37B0CA);
    Turn(b, h, 21, 0x1A37B0CA, 0xFD9E1D7D, 0x77192407, 0x20AA99CA, 0xD3A49608, 0x00000060, 0x33A23BFC);
    Turn(b, h, 22, 0x33A23BFC, 0x1A37B0CA, 0x7F67875F, 0x77192407, 0x20AA99CA, 0x0B131C03, 0x21283486);
    Turn(b, h, 23, 0x21283486, 0x33A23BFC, 0x868DEC32, 0x7F67875F, 0x77192407, 0x00000030, 0xD541F12D);
  }

  lemma Turns28(b: seq<octet>, h: Regs)
    requires First(b) && h == H0()
    ensures Rounds(b, h, 28) == Regs(0x4AA84D97, 0xBE35FBD5, 0x12104EE9, 0xB1D59F71, 0x75507C4B)
  {
    hide W, Rounds, H0;
    Turns24(b, h);
    Words31(b);
    Turn(b, h, 24, 0xD541F12D, 0x21283486, 0x0CE88EFF, 0x868DEC32, 0x7F67875F, 0x85898EC1, 0xC7567DC6);
    Turn(b, h, 25, 0xC7567DC6, 0xD541F12D, 0x884A0D21, 0x0CE88EFF, 0x868DEC32, 0x16263806, 0x48413BA4);
    Turn(b, h, 26, 0x48413BA4, 0xC7567DC6, 0x75507C4B, 0x884A0D21, 0x0CE88EFF, 0x00000000, 0xBE35FBD5);
    Turn(b, h, 27, 0xBE35FBD5, 0x48413BA4, 0xB1D59F71, 0x75507C4B, 0x884A0D21, 0x00000180, 0x4AA84D97);
  }

  lemma Turns32(b: seq<octet>, h: Regs)
    requires First(b) && h == H0()
    ensures Rounds(b, h, 32) == Regs(0x3B845D33, 0x1267B407, 0x717EEBD7, 0xA0DC2D4B, 0xD2AA1365)
  {
    hide W, Rounds, H0;
    Turns28(b, h);
    Words31(b);
    Turn(b, h, 28, 0x4AA84D97, 0xBE35FBD5, 0x12104EE9, 0xB1D59F71, 0x75507C4B, 0x2C4C700C, 0x8370B52E);
    Turn(b, h, 29, 0x8370B52E, 0x4AA84D97, 0x6F8D7EF5, 0x12104EE9, 0xB1D59F71, 0x000000F0, 0xC5FBAF5D);
    Turn(b, h, 30, 0xC5FBAF5D, 0x8370B52E, 0xD2AA1365, 0x6F8D7EF5, 0x12104EE9, 0x93AFB507, 0x1267B407);
    Turn(b, h, 31, 0x1267B407, 0xC5FBAF5D, 0xA0DC2D4B, 0xD2AA1365, 0x6F8D7EF5, 0x5898E048, 0x3B845D33);
  }

  lemma Turns36(b: seq<octet>, h: Regs)
    requires First(b) && h == H0()
    ensures Rounds(b, h, 36) == Regs(0xDCBBB0CB, 0x21796AD4, 0x4B03AF04, 0x811BEA82, 0xCEE1174C)
  {
    hide W, Rounds, H0;
    Turns32(b, h);
    Words39(b);
    Turn(b, h, 32, 0x3B845D33, 0x1267B407, 0x717EEBD7, 0xA0DC2D4B, 0xD2AA1365, 0x8E9A9202, 0x046FAA0A);
    Turn(b, h, 33, 0x046FAA0A, 0x3B845D33, 0xC499ED01, 0x717EEBD7, 0xA0DC2D4B, 0x00000600, 0x2C0EBC11);
    Turn(b, h, 34, 0x2C0EBC11, 0x046FAA0A, 0xCEE1174C, 0xC499ED01, 0x717EEBD7, 0xB131C0F0, 0x21796AD4);
    Turn(b, h, 35, 0x21796AD4, 0x2C0EBC11, 0x811BEA82, 0xCEE1174C, 0xC499ED01, 0x16263BC6, 0xDCBBB0CB);
  }

  lemma Turns40(b: seq<octet>, h: Regs)
    requires First(b) && h == H0()
    ensures Rounds(b, h, 40) == Regs(0x32DE1CBA, 0x4C986405, 0xF718E5CF, 0x03D447F6, 0xF72EEC32)
  {
    hide W, Rounds, H0;
    Turns36(b, h);
    Words39(b);
    Turn(b, h, 36, 0xDCBBB0CB, 0x21796AD4, 0x4B03AF04, 0x811BEA82, 0xCEE1174C, 0x4EBED41E, 0x0F511FD8);
    Turn(b, h, 37, 0x0F511FD8, 0xDCBBB0CB, 0x085E5AB5, 0x4B03AF04, 0x811BEA82, 0x626380A1, 0xDC63973F);
    Turn(b, h, 38, 0xDC63973F, 0x0F511FD8, 0xF72EEC32, 0x085E5AB5, 0x4B03AF04, 0x16263806, 0x4C986405);
    Turn(b, h, 39, 0x4C986405, 0xDC63973F, 0x03D447F6, 0xF72EEC32, 0x085E5AB5, 0x000018C0, 0x32DE1CBA);
  }

  lemma Turns44(b: seq<octet>, h: Regs)
    requires First(b) && h == H0()
    ensures Rounds(b, h, 44) == Regs(0xEE1B1AAF, 0x7F193DC5, 0x25C28357, 0xFF21F7B7, 0x8CB7872E)
  {
    hide W, Rounds, H0;
    Turns40(b, h);
    Words47(b);
    Turn(b, h, 40, 0x32DE1CBA, 0x4C986405, 0xF718E5CF, 0x03D447F6, 0xF72EEC32, 0xD2E138C4, 0xFC87DEDF);
    Turn(b, h, 41, 0xFC87DEDF, 0x32DE1CBA, 0x53261901, 0xF718E5CF, 0x03D447F6, 0x00000F00, 0x970A0D5C);
    Turn(b, h, 42, 0x970A0D5C, 0xFC87DEDF, 0x8CB7872E, 0x53261901, 0xF718E5CF, 0x3AFB5079, 0x7F193DC5);
    Turn(b, h, 43, 0x7F193DC5, 0x970A0D5C, 0xFF21F7B7, 0x8CB7872E, 0x53261901, 0x898E04E5, 0xEE1B1AAF);
  }

  lemma Turns48(b: seq<octet>, h: Regs)
    requires First(b) && h == H0()
    ensures Rounds(b, h, 48) == Regs(0xBEAD02CA, 0xA01B846C, 0x8714787C, 0x503CA382, 0xFB86C6AB)
  {
    hide W, Rounds, H0;
    Turns44(b, h);
    Words47(b);
    Turn(b, h, 44, 0xEE1B1AAF, 0x7F193DC5, 0x25C28357, 0xFF21F7B7, 0x8CB7872E, 0xE2BA3C2B, 0x40F28E09);
    Turn(b, h, 45, 0x40F28E09, 0xEE1B1AAF, 0x5FC64F71, 0x25C28357, 0xFF21F7B7, 0x000060C0, 0x1C51E1F2);
    Turn(b, h, 46, 0x1C51E1F2, 0x40F28E09, 0xFB86C6AB, 0x5FC64F71, 0x25C28357, 0x053A37CD, 0xA01B846C);
    Turn(b, h, 47, 0xA01B846C, 0x1C51E1F2, 0x503CA382, 0xFB86C6AB, 0x5FC64F71, 0x74458547, 0xBEAD02CA);
  }

  lemma Turns52(b: seq<octet>, h: Regs)
    requires First(b) && h == H0()
    ensures Rounds(b, h, 52) == Regs(0x3847AD66, 0x641DB2CE, 0x4481CC71, 0xEEBCE4CD, 0xAFAB40B2)
  {
    hide W, Rounds, H0;
    Turns48(b, h);
    Words55(b);
    Turn(b, h, 48, 0xBEAD02CA, 0xA01B846C, 0x8714787C, 0x503CA382, 0xFB86C6AB, 0xDA9415ED, 0xBAF39337);
    Turn(b, h, 49, 0xBAF39337, 0xBEAD02CA, 0x2806E11B, 0x8714787C, 0x503CA382, 0x26380A16, 0x120731C5);
    Turn(b, h, 50, 0x120731C5, 0xBAF39337, 0xAFAB40B2, 0x2806E11B, 0x8714787C, 0x626383A1, 0x641DB2CE);
    Turn(b, h, 51, 0x641DB2CE, 0x120731C5, 0xEEBCE4CD, 0xAFAB40B2, 0x2806E11B, 0x4EBF54DE, 0x3847AD66);
  }

  lemma Turns56(b: seq<octet>, h: Regs)
    requires First(b) && h == H0()
    ensures Rounds(b, h, 56) == Regs(0x5E6456AF, 0x7B71F76D, 0x09FA7C76, 0x792410DB, 0x8E11EB59)
  {
    hide W, Rounds, H0;
    Turns52(b, h);
    Words55(b);
    Turn(b, h, 52, 0x3847AD66, 0x641DB2CE, 0x4481CC71, 0xEEBCE4CD, 0xAFAB40B2, 0x3835B44B, 0xE490436D);
    Turn(b, h, 53, 0xE490436D, 0x3847AD66, 0x99076CB3, 0x4481CC71, 0xEEBCE4CD, 0x0000F600, 0x27E9F1D8);
    Turn(b, h, 54, 0x27E9F1D8, 0xE490436D, 0x8E11EB59, 0x99076CB3, 0x4481CC71, 0x1E84C7A3, 0x7B71F76D);
    Turn(b, h, 55, 0x7B71F76D, 0x27E9F1D8, 0x792410DB, 0x8E11EB59, 0x99076CB3, 0x98E04D98, 0x5E6456AF);
  }

  lemma Turns60(b: seq<octet>, h: Regs)
    requires First(b) && h == H0()
    ensures Rounds(b, h, 60) == Regs(0x3F52DE5A, 0x09D785FD, 0x3498BFD4, 0xF211824F, 0xD79915AB)
  {
    hide W, Rounds, H0;
    Turns56(b, h);
    Words63(b);
    Turn(b, h, 56, 0x5E6456AF, 0x7B71F76D, 0x09FA7C76, 0x792410DB, 0x8E11EB59, 0x651D16A0, 0xC846093F);
    Turn(b, h, 57, 0xC846093F, 0x5E6456AF, 0x5EDC7DDB, 0x09FA7C76, 0x792410DB, 0x62658CA1, 0xD262FF50);
    Turn(b, h, 58, 0xD262FF50, 0xC846093F, 0xD79915AB, 0x5EDC7DDB, 0x09FA7C76, 0x458544D6, 0x09D785FD);
    Turn(b, h, 59, 0x09D785FD, 0xD262FF50, 0xF211824F, 0xD79915AB, 0x5EDC7DDB, 0x44584CB7, 0x3F52DE5A);
  }

  lemma Turns64(b: seq<octet>, h: Regs)
    requires First(b) && h == H0()
    ensures Rounds(b, h, 64) == Regs(0x6B61C9E1, 0xB66C020B, 0x9523272C, 0xF5D5B051, 0x8FD4B796)
  {
    hide W, Rounds, H0;
    Turns60(b, h);
    Words63(b);
    Turn(b, h, 60, 0x3F52DE5A, 0x09D785FD, 0x3498BFD4, 0xF211824F, 0xD79915AB, 0x7BA06619, 0xD756C147);
    Turn(b, h, 61, 0xD756C147, 0x3F52DE5A, 0x4275E17F, 0x3498BFD4, 0xF211824F, 0x6380AEA2, 0x548C9CB2);
    Turn(b, h, 62, 0x548C9CB2, 0xD756C147, 0x8FD4B796, 0x4275E17F, 0x3498BFD4, 0x0AE55269, 0xB66C020B);
    Turn(b, h, 63, 0xB66C020B, 0x548C9CB2, 0xF5D5B051, 0x8FD4B796, 0x4275E17F, 0x627B49A1, 0x6B61C9E1);
  }

  lemma Turns68(b: seq<octet>, h: Regs)
    requires First(b) && h == H0()
    ensures Rounds(b, h, 68) == Regs(0x78DD4D2B, 0x0C3DF2B4, 0x4405957E, 0x0677E9EB, 0x5AD87278)
  {
    hide W, Rounds, H0;
    Turns64(b, h);
    Words71(b);
    Turn(b, h, 64, 0x6B61C9E1, 0xB66C020B, 0x9523272C, 0xF5D5B051, 0x8FD4B796, 0x7CD45C9D, 0x19DFA7AC);
    Turn(b, h, 65, 0x19DFA7AC, 0x6B61C9E1, 0xED9B0082, 0x9523272C, 0xF5D5B051, 0x000F0000, 0x101655F9);
    Turn(b, h, 66, 0x101655F9, 0x19DFA7AC, 0x5AD87278, 0xED9B0082, 0x9523272C, 0xFB50753A, 0x0C3DF2B4);
    Turn(b, h, 67, 0x0C3DF2B4, 0x101655F9, 0x0677E9EB, 0x5AD87278, 0xED9B0082, 0xEC6765E8, 0x78DD4D2B);
  }

  lemma Turns72(b: seq<octet>, h: Regs)
    requires First(b) && h == H0()
    ensures Rounds(b, h, 72) == Regs(0x39859DE7, 0xC199F8C7, 0x8FC96230, 0x125C24F0, 0xDE37534A)
  {
    hide W, Rounds, H0;
    Turns68(b, h);
    Words71(b);
    Turn(b, h, 68, 0x78DD4D2B, 0x0C3DF2B4, 0x4405957E, 0x0677E9EB, 0x5AD87278, 0xBA3C2BE2, 0x497093C0);
    Turn(b, h, 69, 0x497093C0, 0x78DD4D2B, 0x030F7CAD, 0x4405957E, 0x0677E9EB, 0x0060C000, 0x3F2588C2);
    Turn(b, h, 70, 0x3F2588C2, 0x497093C0, 0xDE37534A, 0x030F7CAD, 0x4405957E, 0x3A37CD05, 0xC199F8C7);
    Turn(b, h, 71, 0xC199F8C7, 0x3F2588C2, 0x125C24F0, 0xDE37534A, 0x030F7CAD, 0x458546F4, 0x39859DE7);
  }

  lemma Turns76(b: seq<octet>, h: Regs)
    requires First(b) && h == H0()
    ensures Rounds(b, h, 76) == Regs(0x63F7DAB7, 0x5EE76897, 0xC45E4FDB, 0x3B6D0B79, 0xCE616779)
  {
    hide W, Rounds, H0;
    Turns72(b, h);
    Words79(b);
    Turn(b, h, 72, 0x39859DE7, 0xC199F8C7, 0x8FC96230, 0x125C24F0, 0xDE37534A, 0xB8599DD6, 0xEDB42DE4);
    Turn(b, h, 73, 0xEDB42DE4, 0x39859DE7, 0xF0667E31, 0x8FC96230, 0x125C24F0, 0x380A1A26, 0x11793F6F);
    Turn(b, h, 74, 0x11793F6F, 0xEDB42DE4, 0xCE616779, 0xF0667E31, 0x8FC96230, 0x01E02203, 0x5EE76897);
    Turn(b, h, 75, 0x5EE76897, 0x11793F6F, 0x3B6D0B79, 0xCE616779, 0xF0667E31, 0xE7CC3456, 0x63F7DAB7);
  }

  lemma Turns80(b: seq<octet>, h: Regs)
    requires First(b) && h == H0()
    ensures Rounds(b, h, 80) == Regs(0x42541B35, 0x5738D5E1, 0x21834873, 0x681E6DF6, 0xD8FDF6AD)
  {
    hide W, Rounds, H0;
    Turns76(b, h);
    Words79(b);
    Turn(b, h, 76, 0x63F7DAB7, 0x5EE76897, 0xC45E4FDB, 0x3B6D0B79, 0xCE616779, 0xE6E60B69, 0xA079B7D9);
    Turn(b, h, 77, 0xA079B7D9, 0x63F7DAB7, 0xD7B9DA25, 0xC45E4FDB, 0x3B6D0B79, 0x00F60A00, 0x860D21CC);
    Turn(b, h, 78, 0x860D21CC, 0xA079B7D9, 0xD8FDF6AD, 0xD7B9DA25, 0xC45E4FDB, 0x5795EF4F, 0x5738D5E1);
    Turn(b, h, 79, 0x5738D5E1, 0x860D21CC, 0x681E6DF6, 0xD8FDF6AD, 0xD7B9DA25, 0x822E0879, 0x42541B35);
  }

  /** A9993E36 4706816A BA3E2571 7850C26C 9CD0D89D. */
  lemma KnownAnswer()
    ensures Digest(ABC) == Regs(0xA9993E36, 0x4706816A, 0xBA3E2571, 0x7850C26C, 0x9CD0D89D)
  {
    var b, h := Block(), H0();
    BlockDigest(b, h);
    PaddedIsBlock();
  }

  lemma BlockDigest(b: seq<octet>, h: Regs)
    requires b == Block() && h == H0()
    ensures Hash(h, b) == Regs(0xA9993E36, 0x4706816A, 0xBA3E2571, 0x7850C26C, 0x9CD0D89D)
  {
    hide Rounds, First, Block, Hash, Compress, H0;
    BlockIsFirst(b);
    Turns80(b, h);
    HashBlock(h, [], 0, b);
    HashNone(h);
    assert [] + b == b;
    LastSum(b, h);
  }

  lemma LastSum(b: seq<octet>, h: Regs)
    requires |b| == BLOCK_SIZE && h == H0()
    requires Rounds(b, h, 80) == Regs(0x42541B35, 0x5738D5E1, 0x21834873, 0x681E6DF6, 0xD8FDF6AD)
    ensures Compress(h, b) == Regs(0xA9993E36, 0x4706816A, 0xBA3E2571, 0x7850C26C, 0x9CD0D89D)
  {
    hide Rounds;
  }
}
