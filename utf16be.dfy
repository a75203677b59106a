/**
 * The UTF-16BE encoder: each code point becomes one 16-bit code unit, or a
 * surrogate pair when it lies above U+FFFF (section 2.1 of RFC 2781), and
 * each code unit is written high byte first. Surrogate code points are
 * encoded as they are, with a warning.
 */
module Utf16Be {
  import opened Numerals
  import opened Unicode

  /** The code units of one code point, by the arithmetic of section 2.1 of RFC 2781. */
  function CodeUnits(cp: int): (units: seq<nat>)
    requires IsCodePoint(cp)
    ensures cp <= 0xFFFF ==> units == [cp]
    ensures cp > 0xFFFF ==> |units| == 2 && IsHighSurrogate(units[0]) && IsLowSurrogate(units[1])
    ensures cp > 0xFFFF ==> 0x10000 + (units[0] - 0xD800) * 0x400 + (units[1] - 0xDC00) == cp
  {
    if cp <= 0xFFFF then [cp]
    else
      var u := cp - 0x10000;
      [0xD800 + u / 0x400, 0xDC00 + u % 0x400]
  }

  /** A 16-bit code unit read high byte first. */
  function Unit(hi: Byte, lo: Byte): nat {
    hi * 0x100 + lo
  }

  /** 16-bit code units written high byte first. */
  function BigEndian(units: seq<nat>): (bytes: seq<Byte>)
    requires forall i :: 0 <= i < |units| ==> units[i] <= 0xFFFF
    ensures |bytes| == 2 * |units|
    ensures forall i :: 0 <= i < |units| ==> Unit(bytes[2 * i], bytes[2 * i + 1]) == units[i]
  {
    if units == [] then []
    else
      var u := units[0];
      var rest := BigEndian(units[1..]);
      var hi, lo := u / 0x100, u % 0x100;
      assert Unit(hi, lo) == u;
      var bytes := [hi, lo] + rest;
      assert forall i :: 1 <= i < |units| ==> bytes[2 * i] == rest[2 * (i - 1)] && bytes[2 * i + 1] == rest[2 * (i - 1) + 1];
      bytes
  }

  /**
   * The bytes the encoder appends for one code point: the two bytes
   * `(cp >> 8) & 0xFF` and `cp & 0xFF` up to U+FFFF, otherwise the high and
   * then the low surrogate, each high byte first.
   */
  function EncodeCodePoint(cp: int): (bytes: seq<Byte>)
    requires IsCodePoint(cp)
    ensures cp <= 0xFFFF ==> bytes == [(cp / 0x100) % 0x100, cp % 0x100]
    ensures cp > 0xFFFF ==> |bytes| == 4
    ensures cp > 0xFFFF ==> IsHighSurrogate(Unit(bytes[0], bytes[1])) && IsLowSurrogate(Unit(bytes[2], bytes[3]))
    ensures cp > 0xFFFF ==> 0x10000 + (Unit(bytes[0], bytes[1]) % 0x400) * 0x400 + Unit(bytes[2], bytes[3]) % 0x400 == cp
  {
    var units := CodeUnits(cp);
    var bytes := BigEndian(units);
    if cp <= 0xFFFF then bytes
    else
      assert Unit(bytes[0], bytes[1]) == units[0] && Unit(bytes[2], bytes[3]) == units[1];
      assert units[0] % 0x400 == units[0] - 0xD800;
      assert units[1] % 0x400 == units[1] - 0xDC00;
      bytes
  }

  /**
   * Above U+FFFF the loop's own shifts and masks, `0xD800 | ((v >> 10) & 0x3FF)`
   * and `0xDC00 | (v & 0x3FF)` with `v = cp - 0x10000`, give the same bytes.
   */
  lemma SupplementaryBytes(cp: int, v: int, high: int, low: int)
    requires IsCodePoint(cp) && cp > 0xFFFF && v == cp - 0x10000
    requires high == 0xD800 + (v / 0x400) % 0x400 && low == 0xDC00 + v % 0x400
    ensures 0 <= high / 0x100 < 0x100 && 0 <= low / 0x100 < 0x100
    ensures EncodeCodePoint(cp) == [high / 0x100, high % 0x100, low / 0x100, low % 0x100]
  {
    assert v / 0x400 < 0x400;
    var units := CodeUnits(cp);
    assert units == [high, low];
    assert BigEndian(units)[2..] == BigEndian(units[1..]);
  }

  /** The byte list: the code points' encodings, concatenated in order. */
  function EncodedBytes(cps: seq<int>): (bytes: seq<Byte>)
    requires AllCodePoints(cps)
    ensures |bytes| == EncodedLength(cps)
  {
    if cps == [] then [] else EncodeCodePoint(cps[0]) + EncodedBytes(cps[1..])
  }

  /** The byte count as a sum: two bytes per code point up to U+FFFF, four above. */
  function EncodedLength(cps: seq<int>): (n: nat)
    ensures n % 2 == 0
    ensures 2 * |cps| <= n <= 4 * |cps|
  {
    if cps == [] then 0 else (if cps[0] <= 0xFFFF then 2 else 4) + EncodedLength(cps[1..])
  }

  /** Encoding runs left to right: a list's bytes are its parts' bytes, in sequence. */
  lemma {:induction false} EncodedBytesOfConcat(a: seq<int>, b: seq<int>)
    requires AllCodePoints(a) && AllCodePoints(b)
    ensures AllCodePoints(a + b)
    ensures EncodedBytes(a + b) == EncodedBytes(a) + EncodedBytes(b)
    decreases |a|
  {
    if a != [] {
      assert (a + b)[0] == a[0];
      assert (a + b)[1..] == a[1..] + b;
      EncodedBytesOfConcat(a[1..], b);
    } else {
      assert a + b == b;
    }
  }

  /** The surrogate code points of a list, in order: the ones the encoder warns about. */
  function Surrogates(cps: seq<int>): seq<int> {
    if cps == [] then []
    else
      var last := cps[|cps| - 1];
      Surrogates(cps[..|cps| - 1]) + (if IsSurrogate(last) then [last] else [])
  }

  /** A value is warned about exactly when it is in the list and is a surrogate. */
  lemma {:induction false} SurrogatesExactly(cps: seq<int>, x: int)
    ensures x in Surrogates(cps) <==> x in cps && IsSurrogate(x)
  {
    if cps != [] {
      var init := cps[..|cps| - 1];
      assert cps == init + [cps[|cps| - 1]];
      SurrogatesExactly(init, x);
    }
  }

  /** One more code point: its bytes and its warning go after those of the ones before it. */
  lemma EncodeStep(cps: seq<int>, i: nat)
    requires AllCodePoints(cps) && i < |cps|
    ensures EncodedBytes(cps[..i + 1]) == EncodedBytes(cps[..i]) + EncodeCodePoint(cps[i])
    ensures Surrogates(cps[..i + 1]) == Surrogates(cps[..i]) + if IsSurrogate(cps[i]) then [cps[i]] else []
  {
    var cp := cps[i];
    assert cps[..i + 1] == cps[..i] + [cp];
    assert cps[..i + 1][..i] == cps[..i];
    EncodedBytesOfConcat(cps[..i], [cp]);
    assert EncodedBytes([cp]) == EncodeCodePoint(cp);
  }

  /**
   * The encode loop: for each code point in order, append its bytes and,
   * for a surrogate, record a warning.
   */
  method EncodeAll(cps: seq<int>) returns (bytes: seq<Byte>, warnings: seq<int>)
    requires AllCodePoints(cps)
    ensures bytes == EncodedBytes(cps)
    ensures warnings == Surrogates(cps)
  {
    bytes, warnings := [], [];
    for i := 0 to |cps|
      invariant bytes == EncodedBytes(cps[..i])
      invariant warnings == Surrogates(cps[..i])
    {
      var cp := cps[i];
      EncodeStep(cps, i);
      if cp <= 0xFFFF {
        if 0xD800 <= cp <= 0xDFFF {
          warnings := warnings + [cp];
        }
        bytes := bytes + [(cp / 0x100) % 0x100, cp % 0x100];
      } else {
        var v := cp - 0x10000;
        var high := 0xD800 + (v / 0x400) % 0x400;
        var low := 0xDC00 + v % 0x400;
        SupplementaryBytes(cp, v, high, low);
        bytes := bytes + [high / 0x100, high % 0x100, low / 0x100, low % 0x100];
      }
    }
    assert cps[..|cps|] == cps;
  }

  /** Bytes read back as 16-bit code units, high byte first. */
  function Units(bytes: seq<Byte>): (units: seq<nat>)
    requires |bytes| % 2 == 0
    ensures |units| == |bytes| / 2
  {
    if bytes == [] then [] else [Unit(bytes[0], bytes[1])] + Units(bytes[2..])
  }

  lemma {:induction false} UnitsOfConcat(a: seq<Byte>, b: seq<Byte>)
    requires |a| % 2 == 0 && |b| % 2 == 0
    ensures Units(a + b) == Units(a) + Units(b)
    decreases |a|
  {
    if a != [] {
      assert (a + b)[2..] == a[2..] + b;
      UnitsOfConcat(a[2..], b);
    } else {
      assert a + b == b;
    }
  }

  /** Each code unit written by `BigEndian` reads back as itself. */
  lemma {:induction false} UnitsOfBigEndian(units: seq<nat>)
    requires forall i :: 0 <= i < |units| ==> units[i] <= 0xFFFF
    ensures Units(BigEndian(units)) == units
  {
    if units != [] {
      var bytes := BigEndian(units);
      assert bytes[2..] == BigEndian(units[1..]);
      UnitsOfBigEndian(units[1..]);
    }
  }

  /**
   * A UTF-16 decoder: a high surrogate followed by a low surrogate is one
   * code point, and any other unit stands for itself. On well-formed input it
   * agrees with section 2.2 of RFC 2781; a lone surrogate, which that section
   * treats as an error, is passed through unchanged.
   */
  function Decode(units: seq<nat>): seq<int> {
    if units == [] then []
    else if |units| >= 2 && IsHighSurrogate(units[0]) && IsLowSurrogate(units[1]) then
      [0x10000 + (units[0] - 0xD800) * 0x400 + (units[1] - 0xDC00)] + Decode(units[2..])
    else [units[0]] + Decode(units[1..])
  }

  lemma DecodeCodeUnits(cp: int, rest: seq<nat>)
    requires IsScalarValue(cp)
    ensures Decode(CodeUnits(cp) + rest) == [cp] + Decode(rest)
  {
    var units := CodeUnits(cp) + rest;
    if cp <= 0xFFFF {
      assert units[1..] == rest;
    } else {
      assert units[2..] == rest;
    }
  }

  /** Decoding the bytes gives back the code points whenever none of them is a surrogate. */
  lemma {:induction false} DecodeInvertsEncode(cps: seq<int>)
    requires AllScalarValues(cps)
    ensures Decode(Units(EncodedBytes(cps))) == cps
  {
    if cps != [] {
      var cp := cps[0];
      var units := CodeUnits(cp);
      var rest := EncodedBytes(cps[1..]);
      UnitsOfConcat(BigEndian(units), rest);
      UnitsOfBigEndian(units);
      DecodeCodeUnits(cp, Units(rest));
      DecodeInvertsEncode(cps[1..]);
    }
  }

  /**
   * Why surrogates draw a warning: the two surrogate code points of a
   * supplementary code point, given one by one, encode to the very bytes
   * of that code point, so the byte list no longer tells the inputs apart.
   */
  lemma SurrogatePairAlias(cp: int)
    requires IsCodePoint(cp) && cp > 0xFFFF
    ensures var units := CodeUnits(cp);
            AllCodePoints(units) && IsSurrogate(units[0]) && IsSurrogate(units[1]) &&
            EncodedBytes(units) == EncodedBytes([cp])
  {
    var units := CodeUnits(cp);
    assert units[1..][1..] == [];
    assert [cp][1..] == [];
  }
}
