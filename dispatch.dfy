/**
 * The keyword dispatch of `model_init` (main.c): the hashes of the LED
 * mode, speed and colour words select the argument of `rgb_effect`,
 * `rgb_speed` and `rgb_color`. Unknown words select no effect, the middle
 * speed and green.
 */
module Dispatch {
  import opened Wrappers
  import opened CStrings
  import opened Hash
  import opened Keywords
  import opened Rgb

  /** The effect words' hashes in the order of their effect numbers 0..4. */
  const EFFECT_HASHES: seq<U32> := [BKDR_WATER, BKDR_BREATHING, BKDR_MARQUEE, BKDR_RAINBOW, BKDR_COLORFUL]
  /** The speed words' hashes in the order of their speed numbers 1..3. */
  const SPEED_HASHES: seq<U32> := [BKDR_SLOW, BKDR_MIDDLE, BKDR_FAST]
  /** The colour words' hashes in the order of their colour numbers 0..6. */
  const COLOR_HASHES: seq<U32> := [BKDR_RED, BKDR_GREEN, BKDR_BLUE, BKDR_YELLOW, BKDR_PURPLE, BKDR_CYAN, BKDR_WHITE]

  /** The effect `model_init` sends for a mode other than `disable`: the effect word's number, or none. */
  function EffectOf(mode: U32): (r: Option<Byte>)
    ensures r.Some? ==> EffectOk(r.value) && EFFECT_HASHES[r.value] == mode
    ensures r.None? <==> mode !in EFFECT_HASHES
  {
    if mode == BKDR_WATER then Some(0)
    else if mode == BKDR_BREATHING then Some(1)
    else if mode == BKDR_MARQUEE then Some(2)
    else if mode == BKDR_RAINBOW then Some(3)
    else if mode == BKDR_COLORFUL then Some(4)
    else None
  }

  /** The speed `model_init` sends: slow 1, fast 3, anything else 2. */
  function LedSpeedOf(speed: U32): (r: Byte)
    ensures SpeedOk(r)
    ensures speed in SPEED_HASHES ==> SPEED_HASHES[r - 1] == speed
    ensures speed !in SPEED_HASHES ==> r == 2
  {
    if speed == BKDR_SLOW then 1
    else if speed == BKDR_FAST then 3
    else 2
  }

  /** The colour `model_init` sends: the colour word's number, anything else green (1). */
  function ColorOf(color: U32): (r: Byte)
    ensures ColorOk(r)
    ensures color in COLOR_HASHES ==> COLOR_HASHES[r] == color
    ensures color !in COLOR_HASHES ==> r == 1
  {
    if color == BKDR_RED then 0
    else if color == BKDR_BLUE then 2
    else if color == BKDR_YELLOW then 3
    else if color == BKDR_PURPLE then 4
    else if color == BKDR_CYAN then 5
    else if color == BKDR_WHITE then 6
    else 1
  }

  /** Each effect number is selected by exactly one hash: EffectOf inverts the table. */
  lemma EffectOfInverse(e: nat)
    requires e < |EFFECT_HASHES|
    ensures EffectOf(EFFECT_HASHES[e]) == Some(e)
  {
  }

  /** Each speed number is selected by exactly one hash: LedSpeedOf inverts the table. */
  lemma LedSpeedOfInverse(s: nat)
    requires 1 <= s <= |SPEED_HASHES|
    ensures LedSpeedOf(SPEED_HASHES[s - 1]) == s
  {
  }

  /** Each colour number is selected by exactly one hash: ColorOf inverts the table. */
  lemma ColorOfInverse(c: nat)
    requires c < |COLOR_HASHES|
    ensures ColorOf(COLOR_HASHES[c]) == c
  {
  }

  /** The mode words select effects 0..4 in order; `disable` selects none. */
  lemma EffectWords()
    ensures EffectOf(H("water")) == Some(0) && EffectOf(H("breathing")) == Some(1) && EffectOf(H("marquee")) == Some(2)
    ensures EffectOf(H("rainbow")) == Some(3) && EffectOf(H("colorful")) == Some(4) && EffectOf(H("disable")) == None
  {
    LedModeHashes();
  }

  /** The speed words select 1, 2 and 3. */
  lemma LedSpeedWords()
    ensures LedSpeedOf(H("slow")) == 1 && LedSpeedOf(H("middle")) == 2 && LedSpeedOf(H("fast")) == 3
  {
    LedSpeedHashes();
  }

  /** The colour words select 0..6 in order. */
  lemma ColorWords()
    ensures ColorOf(H("red")) == 0 && ColorOf(H("green")) == 1 && ColorOf(H("blue")) == 2 && ColorOf(H("yellow")) == 3
    ensures ColorOf(H("purple")) == 4 && ColorOf(H("cyan")) == 5 && ColorOf(H("white")) == 6
  {
    LedColorHashes();
  }

  /**
   * The colour the program starts with, before any configuration is read,
   * is the `graded` fan keyword; it is no colour word and selects green.
   */
  lemma StartColor()
    ensures BKDR_GRADED !in COLOR_HASHES && ColorOf(BKDR_GRADED) == 1
  {
  }

  /** A colour word in any mix of cases selects its colour, e.g. "Blue" selects 2. */
  lemma ColorWordAnyCase(text: seq<Byte>)
    requires Lower(CStr(text)) == Ascii("blue")
    ensures ColorOf(Fold(CStr(text))) == 2
  {
    HashOfWord(CStr(text), "blue");
    ColorWords();
  }
}
