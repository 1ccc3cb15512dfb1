/**
 * The keyword hashes of main.c: the configuration file's words for the
 * LED mode, LED speed, LED colour and fan mode, and the two interface
 * names, are compared through their `bkdr` hashes. Each constant is the
 * hash of its lower-case name, so any spelling of the word that differs
 * only in case selects it too (Hash.FoldIgnoresCase).
 */
module Keywords {
  import opened CStrings
  import opened Hash

  // led.mode
  const BKDR_DISABLE: U32 := 0xAECA0228
  const BKDR_WATER: U32 := 0x35FDBB97
  const BKDR_BREATHING: U32 := 0x5DC61AC6
  const BKDR_MARQUEE: U32 := 0x1D8B3AA6
  const BKDR_RAINBOW: U32 := 0x06A0FFBE
  const BKDR_COLORFUL: U32 := 0x4D6E39E2
  // led.speed
  const BKDR_SLOW: U32 := 0x0F855DB1
  const BKDR_MIDDLE: U32 := 0x57F49EE9
  const BKDR_FAST: U32 := 0x0DC48D78
  // led.color
  const BKDR_RED: U32 := 0x001E0E15
  const BKDR_GREEN: U32 := 0x1F659047
  const BKDR_BLUE: U32 := 0x0D3E3966
  const BKDR_YELLOW: U32 := 0xDD05D5C4
  const BKDR_PURPLE: U32 := 0x1F096FF4
  const BKDR_CYAN: U32 := 0x0D63E443
  const BKDR_WHITE: U32 := 0x36EB0111
  // fan.mode
  const BKDR_DIRECT: U32 := 0x822E74D5
  const BKDR_SINGLE: U32 := 0x3E6634C4
  const BKDR_GRADED: U32 := 0x106F56A9
  // the interfaces `get_ip` reports
  const IFACE_ETH0: U32 := 0x0DA733A3
  const IFACE_WLAN0: U32 := 0x37721BEE

  /** The `led.mode` keywords: each constant is the hash of its lower-case name. */
  lemma LedModeHashes()
    ensures H("disable") == BKDR_DISABLE && H("water") == BKDR_WATER && H("breathing") == BKDR_BREATHING
    ensures H("marquee") == BKDR_MARQUEE && H("rainbow") == BKDR_RAINBOW && H("colorful") == BKDR_COLORFUL
  {
    FoldDisable(Ascii("disable"));
    FoldWater(Ascii("water"));
    FoldBreathing(Ascii("breathing"));
    FoldMarquee(Ascii("marquee"));
    FoldRainbow(Ascii("rainbow"));
    FoldColorful(Ascii("colorful"));
  }

  /** The `led.speed` keywords: each constant is the hash of its lower-case name. */
  lemma LedSpeedHashes()
    ensures H("slow") == BKDR_SLOW && H("middle") == BKDR_MIDDLE && H("fast") == BKDR_FAST
  {
    FoldSlow(Ascii("slow"));
    FoldMiddle(Ascii("middle"));
    FoldFast(Ascii("fast"));
  }

  /** The `led.color` keywords: each constant is the hash of its lower-case name. */
  lemma LedColorHashes()
    ensures H("red") == BKDR_RED && H("green") == BKDR_GREEN && H("blue") == BKDR_BLUE
    ensures H("yellow") == BKDR_YELLOW && H("purple") == BKDR_PURPLE && H("cyan") == BKDR_CYAN
    ensures H("white") == BKDR_WHITE
  {
    FoldRed(Ascii("red"));
    FoldGreen(Ascii("green"));
    FoldBlue(Ascii("blue"));
    FoldYellow(Ascii("yellow"));
    FoldPurple(Ascii("purple"));
    FoldCyan(Ascii("cyan"));
    FoldWhite(Ascii("white"));
  }

  /** The `fan.mode` keywords: each constant is the hash of its lower-case name. */
  lemma FanModeHashes()
    ensures H("direct") == BKDR_DIRECT && H("single") == BKDR_SINGLE && H("graded") == BKDR_GRADED
  {
    FoldDirect(Ascii("direct"));
    FoldSingle(Ascii("single"));
    FoldGraded(Ascii("graded"));
  }

  /** The interface names `get_ip` recognises by their hashes. */
  lemma InterfaceHashes()
    ensures H("eth0") == IFACE_ETH0 && H("wlan0") == IFACE_WLAN0
  {
    FoldEth0(Ascii("eth0"));
    FoldWlan0(Ascii("wlan0"));
  }

  // The hash of each name, one byte at a time.

  lemma FoldDisable(s: seq<Byte>)
    requires |s| == 7 && s[0] == 100 && s[1] == 105 && s[2] == 115 && s[3] == 97 && s[4] == 98 && s[5] == 108 && s[6] == 101
    ensures Fold(s) == BKDR_DISABLE
  {
    assert s[..0] == [];
    FoldStep(s, 0, 0, 0, 100);
    FoldStep(s, 1, 100, 0, 13205);
    FoldStep(s, 2, 13205, 0, 1729970);
    FoldStep(s, 3, 1729970, 0, 226626167);
    FoldStep(s, 4, 226626167, 6, 3918224199);
    FoldStep(s, 5, 3918224199, 119, 2186261953);
    FoldStep(s, 6, 2186261953, 66, 2932474408);
    assert s[..7] == s;
  }

  lemma FoldWater(s: seq<Byte>)
    requires |s| == 5 && s[0] == 119 && s[1] == 97 && s[2] == 116 && s[3] == 101 && s[4] == 114
    ensures Fold(s) == BKDR_WATER
  {
    assert s[..0] == [];
    FoldStep(s, 0, 0, 0, 119);
    FoldStep(s, 1, 119, 0, 15686);
    FoldStep(s, 2, 15686, 0, 2054982);
    FoldStep(s, 3, 2054982, 0, 269202743);
    FoldStep(s, 4, 269202743, 8, 905821079);
    assert s[..5] == s;
  }

  lemma FoldBreathing(s: seq<Byte>)
    requires |s| == 9 && s[0] == 98 && s[1] == 114 && s[2] == 101 && s[3] == 97 && s[4] == 116 && s[5] == 104 && s[6] == 105 && s[7] == 110 && s[8] == 103
    ensures Fold(s) == BKDR_BREATHING
  {
    assert s[..0] == [];
    FoldStep(s, 0, 0, 0, 98);
    FoldStep(s, 1, 98, 0, 12952);
    FoldStep(s, 2, 12952, 0, 1696813);
    FoldStep(s, 3, 1696813, 0, 222282600);
    FoldStep(s, 4, 222282600, 6, 3349216940);
    FoldStep(s, 5, 3349216940, 102, 660755052);
    FoldStep(s, 6, 660755052, 20, 659565997);
    FoldStep(s, 7, 659565997, 20, 503799797);
    FoldStep(s, 8, 503799797, 15, 1573264070);
    assert s[..9] == s;
  }

  lemma FoldMarquee(s: seq<Byte>)
    requires |s| == 7 && s[0] == 109 && s[1] == 97 && s[2] == 114 && s[3] == 113 && s[4] == 117 && s[5] == 101 && s[6] == 101
    ensures Fold(s) == BKDR_MARQUEE
  {
    assert s[..0] == [];
    FoldStep(s, 0, 0, 0, 109);
    FoldStep(s, 1, 109, 0, 14376);
    FoldStep(s, 2, 14376, 0, 1883370);
    FoldStep(s, 3, 1883370, 0, 246721583);
    FoldStep(s, 4, 246721583, 7, 2255756418);
    FoldStep(s, 5, 2255756418, 68, 3446314731);
    FoldStep(s, 6, 3446314731, 105, 495663782);
    assert s[..7] == s;
  }

  lemma FoldRainbow(s: seq<Byte>)
    requires |s| == 7 && s[0] == 114 && s[1] == 97 && s[2] == 105 && s[3] == 110 && s[4] == 98 && s[5] == 111 && s[6] == 119
    ensures Fold(s) == BKDR_RAINBOW
  {
    assert s[..0] == [];
    FoldStep(s, 0, 0, 0, 114);
    FoldStep(s, 1, 114, 0, 15031);
    FoldStep(s, 2, 15031, 0, 1969166);
    FoldStep(s, 3, 1969166, 0, 257960856);
    FoldStep(s, 4, 257960856, 7, 3728101162);
    FoldStep(s, 5, 3728101162, 113, 3049947885);
    FoldStep(s, 6, 3049947885, 93, 111214526);
    assert s[..7] == s;
  }

  lemma FoldColorful(s: seq<Byte>)
    requires |s| == 8 && s[0] == 99 && s[1] == 111 && s[2] == 108 && s[3] == 111 && s[4] == 114 && s[5] == 102 && s[6] == 117 && s[7] == 108
    ensures Fold(s) == BKDR_COLORFUL
  {
    assert s[..0] == [];
    FoldStep(s, 0, 0, 0, 99);
    FoldStep(s, 1, 99, 0, 13080);
    FoldStep(s, 2, 13080, 0, 1713588);
    FoldStep(s, 3, 1713588, 0, 224480139);
    FoldStep(s, 4, 224480139, 6, 3637094547);
    FoldStep(s, 5, 3637094547, 110, 4012983199);
    FoldStep(s, 6, 4012983199, 122, 1714789074);
    FoldStep(s, 7, 1714789074, 52, 1299069410);
    assert s[..8] == s;
  }

  lemma FoldSlow(s: seq<Byte>)
    requires |s| == 4 && s[0] == 115 && s[1] == 108 && s[2] == 111 && s[3] == 119
    ensures Fold(s) == BKDR_SLOW
  {
    assert s[..0] == [];
    FoldStep(s, 0, 0, 0, 115);
    FoldStep(s, 1, 115, 0, 15173);
    FoldStep(s, 2, 15173, 0, 1987774);
    FoldStep(s, 3, 1987774, 0, 260398513);
    assert s[..4] == s;
  }

  lemma FoldMiddle(s: seq<Byte>)
    requires |s| == 6 && s[0] == 109 && s[1] == 105 && s[2] == 100 && s[3] == 100 && s[4] == 108 && s[5] == 101
    ensures Fold(s) == BKDR_MIDDLE
  {
    assert s[..0] == [];
    FoldStep(s, 0, 0, 0, 109);
    FoldStep(s, 1, 109, 0, 14384);
    FoldStep(s, 2, 14384, 0, 1884404);
    FoldStep(s, 3, 1884404, 0, 246857024);
    FoldStep(s, 4, 246857024, 7, 2273499180);
    FoldStep(s, 5, 2273499180, 69, 1475649257);
    assert s[..6] == s;
  }

  lemma FoldFast(s: seq<Byte>)
    requires |s| == 4 && s[0] == 102 && s[1] == 97 && s[2] == 115 && s[3] == 116
    ensures Fold(s) == BKDR_FAST
  {
    assert s[..0] == [];
    FoldStep(s, 0, 0, 0, 102);
    FoldStep(s, 1, 102, 0, 13459);
    FoldStep(s, 2, 13459, 0, 1763244);
    FoldStep(s, 3, 1763244, 0, 230985080);
    assert s[..4] == s;
  }

  lemma FoldRed(s: seq<Byte>)
    requires |s| == 3 && s[0] == 114 && s[1] == 101 && s[2] == 100
    ensures Fold(s) == BKDR_RED
  {
    assert s[..0] == [];
    FoldStep(s, 0, 0, 0, 114);
    FoldStep(s, 1, 114, 0, 15035);
    FoldStep(s, 2, 15035, 0, 1969685);
    assert s[..3] == s;
  }

  lemma FoldGreen(s: seq<Byte>)
    requires |s| == 5 && s[0] == 103 && s[1] == 114 && s[2] == 101 && s[3] == 101 && s[4] == 110
    ensures Fold(s) == BKDR_GREEN
  {
    assert s[..0] == [];
    FoldStep(s, 0, 0, 0, 103);
    FoldStep(s, 1, 103, 0, 13607);
    FoldStep(s, 2, 13607, 0, 1782618);
    FoldStep(s, 3, 1782618, 0, 233523059);
    FoldStep(s, 4, 233523059, 7, 526749767);
    assert s[..5] == s;
  }

  lemma FoldBlue(s: seq<Byte>)
    requires |s| == 4 && s[0] == 98 && s[1] == 108 && s[2] == 117 && s[3] == 101
    ensures Fold(s) == BKDR_BLUE
  {
    assert s[..0] == [];
    FoldStep(s, 0, 0, 0, 98);
    FoldStep(s, 1, 98, 0, 12946);
    FoldStep(s, 2, 12946, 0, 1696043);
    FoldStep(s, 3, 1696043, 0, 222181734);
    assert s[..4] == s;
  }

  lemma FoldYellow(s: seq<Byte>)
    requires |s| == 6 && s[0] == 121 && s[1] == 101 && s[2] == 108 && s[3] == 108 && s[4] == 111 && s[5] == 119
    ensures Fold(s) == BKDR_YELLOW
  {
    assert s[..0] == [];
    FoldStep(s, 0, 0, 0, 121);
    FoldStep(s, 1, 121, 0, 15952);
    FoldStep(s, 2, 15952, 0, 2089820);
    FoldStep(s, 3, 2089820, 0, 273766528);
    FoldStep(s, 4, 273766528, 8, 1503676911);
    FoldStep(s, 5, 1503676911, 45, 3708147140);
    assert s[..6] == s;
  }

  lemma FoldPurple(s: seq<Byte>)
    requires |s| == 6 && s[0] == 112 && s[1] == 117 && s[2] == 114 && s[3] == 112 && s[4] == 108 && s[5] == 101
    ensures Fold(s) == BKDR_PURPLE
  {
    assert s[..0] == [];
    FoldStep(s, 0, 0, 0, 112);
    FoldStep(s, 1, 112, 0, 14789);
    FoldStep(s, 2, 14789, 0, 1937473);
    FoldStep(s, 3, 1937473, 0, 253809075);
    FoldStep(s, 4, 253809075, 7, 3184217861);
    FoldStep(s, 5, 3184217861, 97, 520712180);
    assert s[..6] == s;
  }

  lemma FoldCyan(s: seq<Byte>)
    requires |s| == 4 && s[0] == 99 && s[1] == 121 && s[2] == 97 && s[3] == 110
    ensures Fold(s) == BKDR_CYAN
  {
    assert s[..0] == [];
    FoldStep(s, 0, 0, 0, 99);
    FoldStep(s, 1, 99, 0, 13090);
    FoldStep(s, 2, 13090, 0, 1714887);
    FoldStep(s, 3, 1714887, 0, 224650307);
    assert s[..4] == s;
  }

  lemma FoldWhite(s: seq<Byte>)
    requires |s| == 5 && s[0] == 119 && s[1] == 104 && s[2] == 105 && s[3] == 116 && s[4] == 101
    ensures Fold(s) == BKDR_WHITE
  {
    assert s[..0] == [];
    FoldStep(s, 0, 0, 0, 119);
    FoldStep(s, 1, 119, 0, 15693);
    FoldStep(s, 2, 15693, 0, 2055888);
    FoldStep(s, 3, 2055888, 0, 269321444);
    FoldStep(s, 4, 269321444, 8, 921370897);
    assert s[..5] == s;
  }

  lemma FoldDirect(s: seq<Byte>)
    requires |s| == 6 && s[0] == 100 && s[1] == 105 && s[2] == 114 && s[3] == 101 && s[4] == 99 && s[5] == 116
    ensures Fold(s) == BKDR_DIRECT
  {
    assert s[..0] == [];
    FoldStep(s, 0, 0, 0, 100);
    FoldStep(s, 1, 100, 0, 13205);
    FoldStep(s, 2, 13205, 0, 1729969);
    FoldStep(s, 3, 1729969, 0, 226626040);
    FoldStep(s, 4, 226626040, 6, 3918207563);
    FoldStep(s, 5, 3918207563, 119, 2184082645);
    assert s[..6] == s;
  }

  lemma FoldSingle(s: seq<Byte>)
    requires |s| == 6 && s[0] == 115 && s[1] == 105 && s[2] == 110 && s[3] == 103 && s[4] == 108 && s[5] == 101
    ensures Fold(s) == BKDR_SINGLE
  {
    assert s[..0] == [];
    FoldStep(s, 0, 0, 0, 115);
    FoldStep(s, 1, 115, 0, 15170);
    FoldStep(s, 2, 15170, 0, 1987380);
    FoldStep(s, 3, 1987380, 0, 260346883);
    FoldStep(s, 4, 260346883, 7, 4040670709);
    FoldStep(s, 5, 4040670709, 123, 1046885572);
    assert s[..6] == s;
  }

  lemma FoldGraded(s: seq<Byte>)
    requires |s| == 6 && s[0] == 103 && s[1] == 114 && s[2] == 97 && s[3] == 100 && s[4] == 101 && s[5] == 100
    ensures Fold(s) == BKDR_GRADED
  {
    assert s[..0] == [];
    FoldStep(s, 0, 0, 0, 103);
    FoldStep(s, 1, 103, 0, 13607);
    FoldStep(s, 2, 13607, 0, 1782614);
    FoldStep(s, 3, 1782614, 0, 233522534);
    FoldStep(s, 4, 233522534, 7, 526680983);
    FoldStep(s, 5, 526680983, 16, 275732137);
    assert s[..6] == s;
  }

  lemma FoldEth0(s: seq<Byte>)
    requires |s| == 4 && s[0] == 101 && s[1] == 116 && s[2] == 104 && s[3] == 48
    ensures Fold(s) == IFACE_ETH0
  {
    assert s[..0] == [];
    FoldStep(s, 0, 0, 0, 101);
    FoldStep(s, 1, 101, 0, 13347);
    FoldStep(s, 2, 13347, 0, 1748561);
    FoldStep(s, 3, 1748561, 0, 229061539);
    assert s[..4] == s;
  }

  lemma FoldWlan0(s: seq<Byte>)
    requires |s| == 5 && s[0] == 119 && s[1] == 108 && s[2] == 97 && s[3] == 110 && s[4] == 48
    ensures Fold(s) == IFACE_WLAN0
  {
    assert s[..0] == [];
    FoldStep(s, 0, 0, 0, 119);
    FoldStep(s, 1, 119, 0, 15697);
    FoldStep(s, 2, 15697, 0, 2056404);
    FoldStep(s, 3, 2056404, 0, 269389034);
    FoldStep(s, 4, 269389034, 8, 930225134);
    assert s[..5] == s;
  }
}
