/** The generated font ranges (fonts/compose.py, fonts/text_shaper.py) and runtime/rtl_ranges.c. */
module RtlRanges {
  import opened Runes

  /** Inclusive codepoint ranges, as contiguous_ranges yields them. */
  type Ranges = seq<(uint16, uint16)>

  predicate Range(cp: uint16, start: nat, end: nat) {
    start <= cp < end
  }

  predicate InRanges(ranges: Ranges, cp: uint16) {
    exists i :: 0 <= i < |ranges| && ranges[i].0 <= cp <= ranges[i].1
  }

  const ZERO_WIDTH_CODEPT: uint16 := 0x591

  predicate IsZeroWidth(cp: uint16) {
    Range(cp, 0x591, 0x5C0) || Range(cp, 0x5C1, 0x5C3) || Range(cp, 0x5C4, 0x5C6) || Range(cp, 0x5C7, 0x5C8) ||
    Range(cp, 0x610, 0x61B) || Range(cp, 0x64B, 0x660) || Range(cp, 0x6D6, 0x6DC) || Range(cp, 0x6DF, 0x6E9) ||
    Range(cp, 0x6EA, 0x6EE) || Range(cp, 0x8B6, 0x8FF)
  }

  /** The recycled blocks that glyph codepoints are drawn from. */
  predicate IsScratch(cp: uint16) {
    Range(cp, 0x700, 0x750) || Range(cp, 0x780, 0x800)
  }

  ghost predicate ScratchOnly(ranges: Ranges) {
    forall cp: uint16 :: InRanges(ranges, cp) ==> IsScratch(cp)
  }

  /** `shaper` stands for the generated ARABIC_SHAPER_RANGE. */
  predicate IsRtl(shaper: Ranges, cp: uint16) {
    Range(cp, 0x60E, 0x660) || Range(cp, 0x66D, 0x700) || Range(cp, 0x750, 0x780) || Range(cp, 0x590, 0x600) ||
    InRanges(shaper, cp)
  }

  predicate IsNeutral(cp: uint16) {
    Range(cp, 0x20, 0x23) || Range(cp, 0x26, 0x30) || Range(cp, 0x3A, 0x41) || Range(cp, 0x5B, 0x61) ||
    Range(cp, 0x7B, 0xA2) || Range(cp, 0xA6, 0xA7) || Range(cp, 0xA8, 0xB0) || Range(cp, 0xB7, 0xBF) ||
    Range(cp, 0x600, 0x60E) || IsZeroWidth(cp)
  }

  predicate IsWeakLtr(cp: uint16) {
    Range(cp, 0x30, 0x3A) || Range(cp, 0x660, 0x66D)
  }
}
