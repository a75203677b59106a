/** Code point ranges shared by the parser, the encoder and the display rendering. */
module Unicode {

  /** The largest Unicode code point. */
  const MaxCodePoint: int := 0x10FFFF

  predicate IsCodePoint(cp: int) {
    0 <= cp <= MaxCodePoint
  }

  /** The range U+D800..U+DFFF reserved for UTF-16 surrogate code units. */
  predicate IsSurrogate(cp: int) {
    0xD800 <= cp <= 0xDFFF
  }

  predicate IsHighSurrogate(unit: int) {
    0xD800 <= unit <= 0xDBFF
  }

  predicate IsLowSurrogate(unit: int) {
    0xDC00 <= unit <= 0xDFFF
  }

  /** A code point that is not a surrogate: what a single character can hold. */
  predicate IsScalarValue(cp: int) {
    IsCodePoint(cp) && !IsSurrogate(cp)
  }

  predicate AllCodePoints(cps: seq<int>) {
    forall i :: 0 <= i < |cps| ==> IsCodePoint(cps[i])
  }

  predicate AllScalarValues(cps: seq<int>) {
    forall i :: 0 <= i < |cps| ==> IsScalarValue(cps[i])
  }
}
