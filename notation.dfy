/**
 * The six notations a token may be written in, each an anchored pattern of
 * a fixed prefix, a digit run and, for the character references, an
 * optional `;`. The parser tries them in a fixed order and takes the first
 * that matches.
 */
module Notation {
  import opened Wrappers
  import opened Numerals

  /** The notations, in the order the parser tries them. */
  datatype Form =
    | UPlus             // U+1F600
    | ZeroX             // 0x1F600
    | HexReference      // &#x1F600; or &#x1F600
    | DecimalReference  // &#128512; or &#128512
    | BareDecimal       // 65
    | BareHex           // 1F600

  /** The place of a notation in the order of trial. */
  function Rank(f: Form): nat {
    match f
    case UPlus => 0
    case ZeroX => 1
    case HexReference => 2
    case DecimalReference => 3
    case BareDecimal => 4
    case BareHex => 5
  }

  function Prefix(f: Form): string {
    match f
    case UPlus => "U+"
    case ZeroX => "0x"
    case HexReference => "&#x"
    case DecimalReference => "&#"
    case _ => ""
  }

  function RadixOf(f: Form): Radix {
    match f
    case DecimalReference => 10
    case BareDecimal => 10
    case _ => 16
  }

  /** The character references may end in `;`. */
  predicate SemicolonAllowed(f: Form) {
    f.HexReference? || f.DecimalReference?
  }

  /** A notation and the digit group its pattern captured. */
  datatype Match = Match(form: Form, digits: string)

  /** t is written in notation m.form with digit group m.digits: t is in the language of that pattern. */
  predicate Spells(m: Match, t: string) {
    IsNumeral(m.digits, RadixOf(m.form)) &&
    (t == Prefix(m.form) + m.digits || (SemicolonAllowed(m.form) && t == Prefix(m.form) + m.digits + ";"))
  }

  /** One notation's anchored pattern applied to t: the captured digit group, if t matches. */
  function Capture(t: string, f: Form): (group: Option<string>)
    ensures group.Some? ==> Spells(Match(f, group.value), t)
  {
    var p := Prefix(f);
    if !(p <= t) then None
    else
      var rest := t[|p|..];
      assert t == p + rest;
      if SemicolonAllowed(f) && rest != [] && rest[|rest| - 1] == ';' then
        var digits := rest[..|rest| - 1];
        assert rest == digits + ";";
        if IsNumeral(digits, RadixOf(f)) then Some(digits) else None
      else if IsNumeral(rest, RadixOf(f)) then Some(rest)
      else None
  }

  /** The patterns tried in order; the first that matches decides the notation. */
  function Recognize(t: string): (m: Option<Match>)
    ensures m.Some? ==> Spells(m.value, t)
  {
    var u := Capture(t, UPlus);
    if u.Some? then Some(Match(UPlus, u.value)) else
    var z := Capture(t, ZeroX);
    if z.Some? then Some(Match(ZeroX, z.value)) else
    var h := Capture(t, HexReference);
    if h.Some? then Some(Match(HexReference, h.value)) else
    var d := Capture(t, DecimalReference);
    if d.Some? then Some(Match(DecimalReference, d.value)) else
    var n := Capture(t, BareDecimal);
    if n.Some? then Some(Match(BareDecimal, n.value)) else
    var x := Capture(t, BareHex);
    if x.Some? then Some(Match(BareHex, x.value)) else
    None
  }

  /** Every spelling of a notation is matched by its pattern, with the same digit group. */
  lemma CaptureComplete(t: string, f: Form, digits: string)
    requires Spells(Match(f, digits), t)
    ensures Capture(t, f) == Some(digits)
  {
    var p := Prefix(f);
    var radix := RadixOf(f);
    assert digits[|digits| - 1] != ';' by {
      assert IsDigitOf(digits[|digits| - 1], radix);
    }
    if t == p + digits {
      assert t[|p|..] == digits;
    } else {
      assert t[|p|..] == digits + ";";
      assert (digits + ";")[..|digits|] == digits;
    }
  }

  /**
   * First match wins: a token written in some notation is recognized, and
   * by a notation tried no later than that one.
   */
  lemma RecognizeFirstMatch(t: string, m: Match)
    requires Spells(m, t)
    ensures Recognize(t).Some?
    ensures Rank(Recognize(t).value.form) <= Rank(m.form)
  {
    CaptureComplete(t, m.form, m.digits);
    var r := Recognize(t);
    match m.form
    case UPlus => assert r == Some(Match(UPlus, m.digits));
    case ZeroX => assert r.Some?;
    case HexReference => assert r.Some?;
    case DecimalReference => assert r.Some?;
    case BareDecimal => assert r.Some?;
    case BareHex => assert r.Some?;
  }

  /** A token is unrecognized exactly when no notation spells it. */
  lemma UnrecognizedIffNoNotation(t: string)
    ensures Recognize(t).None? <==> forall m :: !Spells(m, t)
  {
    if Recognize(t).None? {
      forall m | Spells(m, t) ensures false {
        RecognizeFirstMatch(t, m);
      }
    }
  }

  /**
   * Each notation is read as itself, except that a bare all-decimal token,
   * though also bare hex, is read as decimal.
   */
  lemma RecognizeSpelled(t: string, m: Match)
    requires Spells(m, t)
    requires !(m.form == BareHex && IsNumeral(m.digits, 10))
    ensures Recognize(t) == Some(m)
  {
    RecognizeFirstMatch(t, m);
    var r := Recognize(t).value;
    assert Spells(r, t);
    NotationsDisjoint(t, r, m);
  }

  /** The notation a token's leading characters announce. */
  function Shape(t: string): Form {
    if "U+" <= t then UPlus
    else if "0x" <= t then ZeroX
    else if "&#x" <= t then HexReference
    else if "&#" <= t then DecimalReference
    else if AllDigits(t, 10) then BareDecimal
    else BareHex
  }

  /** A spelling is announced by its leading characters, bar a bare hex run that is all decimal. */
  lemma ShapeOfSpelling(t: string, m: Match)
    requires Spells(m, t)
    ensures m.form == Shape(t) || (m.form == BareHex && Shape(t) == BareDecimal)
  {
    var d := m.digits;
    var radix := RadixOf(m.form);
    assert IsDigitOf(d[0], radix);
    match m.form
    case UPlus =>
      assert t == "U+" + d;
    case ZeroX =>
      assert t == "0x" + d && t[0] == '0';
    case HexReference =>
      assert t[0] == '&' && t[..3] == "&#x";
      assert !("U+" <= t) && !("0x" <= t) && "&#x" <= t;
    case DecimalReference =>
      assert t[0] == '&' && t[..2] == "&#" && t[2] == d[0];
      assert !("U+" <= t) && !("0x" <= t) && !("&#x" <= t) && "&#" <= t;
    case BareDecimal =>
      assert t == d;
      if |t| >= 2 {
        assert IsDigitOf(t[1], 10);
      }
    case BareHex =>
      assert t == d;
      if |t| >= 2 {
        assert IsDigitOf(t[1], 16);
      }
  }

  /** Two notations spelling the same token are one and the same, bar the bare decimal/hex overlap. */
  lemma NotationsDisjoint(t: string, r: Match, m: Match)
    requires Spells(r, t) && Spells(m, t)
    requires Rank(r.form) <= Rank(m.form)
    requires !(m.form == BareHex && IsNumeral(m.digits, 10))
    ensures r == m
  {
    ShapeOfSpelling(t, r);
    ShapeOfSpelling(t, m);
    if m.form == BareHex {
      assert t == m.digits;
    }
    assert r.form == m.form;
    CaptureComplete(t, r.form, r.digits);
    CaptureComplete(t, m.form, m.digits);
  }

  /** A bare run of decimal digits is read as a decimal number. */
  lemma BareDecimalTokens(t: string)
    requires IsNumeral(t, 10)
    ensures Recognize(t) == Some(Match(BareDecimal, t))
  {
    assert t == Prefix(BareDecimal) + t;
    RecognizeSpelled(t, Match(BareDecimal, t));
  }

  /** A bare run of hex digits with at least one letter is read as a hex number. */
  lemma BareHexTokens(t: string)
    requires IsNumeral(t, 16) && !IsNumeral(t, 10)
    ensures Recognize(t) == Some(Match(BareHex, t))
  {
    assert t == Prefix(BareHex) + t;
    RecognizeSpelled(t, Match(BareHex, t));
  }
}
