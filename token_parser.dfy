/**
 * `ParseTokensToCodePoints`: every token of the command line becomes either
 * a code point or one diagnostic line. A token is read in the first notation
 * that matches it, converted with `Convert.ToInt32`, and kept only when the
 * value lies in 0..0x10FFFF.
 */
module TokenParser {
  import opened Wrappers
  import opened Unicode
  import opened Numerals
  import opened Notation
  import Tokenizer

  /** What one token contributes: a code point, or one diagnostic. */
  datatype Verdict = Accepted(codePoint: int) | Diagnosed(message: string)

  function UnrecognizedMessage(t: string): string {
    "Unrecognized token: '" + t + "'"
  }

  function OutOfRangeMessage(t: string, value: int): string {
    "Out of range: " + t + " -> " + DecimalString(value)
  }

  /** Reported where `Convert.ToInt32` would throw an `OverflowException`. */
  function OverflowMessage(t: string): string {
    "Overflow: " + t
  }

  /** The mathematical value of a recognized token's digit group. */
  function NotationValue(m: Match): nat
    requires IsNumeral(m.digits, RadixOf(m.form))
  {
    Value(m.digits, RadixOf(m.form))
  }

  /**
   * The conversion of the digit group of the first notation that matches t,
   * or None when no notation does.
   */
  function TokenValue(t: string): Option<Conversion> {
    match Recognize(t)
    case None => None
    case Some(m) => Some(ToInt32(m.digits, RadixOf(m.form)))
  }

  /** What a token contributes, given what its conversion gave. */
  function Judge(t: string, c: Option<Conversion>): (v: Verdict)
    ensures v.Accepted? ==> IsCodePoint(v.codePoint)
  {
    match c
    case None => Diagnosed(UnrecognizedMessage(t))
    case Some(Overflow) => Diagnosed(OverflowMessage(t))
    case Some(Converted(value)) =>
      if value < 0 || value > MaxCodePoint then Diagnosed(OutOfRangeMessage(t, value))
      else Accepted(value)
  }

  /** The body of the token loop for one token. */
  function Classify(t: string): (v: Verdict)
    ensures v.Accepted? ==> IsCodePoint(v.codePoint)
  {
    Judge(t, TokenValue(t))
  }

  /**
   * A token is accepted exactly when it is written in some notation whose
   * digits denote a code point, and then it yields that very number: no
   * wrapped or truncated value is ever accepted.
   */
  lemma AcceptedIsNotationValue(t: string)
    ensures Classify(t).Accepted? <==> Recognize(t).Some? && NotationValue(Recognize(t).value) <= MaxCodePoint
    ensures Classify(t).Accepted? ==> Classify(t).codePoint == NotationValue(Recognize(t).value)
  {
    if Recognize(t).Some? {
      var m := Recognize(t).value;
      var n := NotationValue(m);
      var c := ToInt32(m.digits, RadixOf(m.form));
      if c.Converted? && 0 <= c.value {
        assert c.value == n;
      }
    }
  }

  /**
   * The converse: a token spelled in a notation (a bare all-decimal run
   * taken as decimal) whose digits denote a code point is accepted with it.
   */
  lemma SpelledCodePointAccepted(t: string, m: Match)
    requires Spells(m, t) && !(m.form == BareHex && IsNumeral(m.digits, 10))
    requires NotationValue(m) <= MaxCodePoint
    ensures Classify(t) == Accepted(NotationValue(m))
  {
    RecognizeSpelled(t, m);
  }

  /** A token is diagnosed as unrecognized exactly when no notation spells it. */
  lemma UnrecognizedExactly(t: string)
    ensures Classify(t) == Diagnosed(UnrecognizedMessage(t)) <==> forall m :: !Spells(m, t)
  {
    UnrecognizedIffNoNotation(t);
    var u := UnrecognizedMessage(t);
    assert u[0] == 'U';
    assert OverflowMessage(t)[0] == 'O';
    if Recognize(t).Some? {
      var m := Recognize(t).value;
      var c := ToInt32(m.digits, RadixOf(m.form));
      if c.Converted? {
        assert OutOfRangeMessage(t, c.value)[0] == 'O';
      }
    }
  }

  /**
   * A recognized token whose number lies above 0x10FFFF is never accepted:
   * a number that fits an `int` is reported out of range with the value the
   * conversion produced (negative for eight hex digits from 80000000 up),
   * and a larger one is reported as an overflow.
   */
  lemma LargeNumbersDiagnosed(t: string)
    requires Recognize(t).Some? && NotationValue(Recognize(t).value) > MaxCodePoint
    ensures var m := Recognize(t).value;
            var n := NotationValue(m);
            var limit := if RadixOf(m.form) == 10 then Int32Max else UInt32Max;
            Classify(t) == if n > limit then Diagnosed(OverflowMessage(t))
                           else Diagnosed(OutOfRangeMessage(t, if n <= Int32Max then n else n - TwoTo32))
  {
    var m := Recognize(t).value;
    var n := NotationValue(m);
    var c := ToInt32(m.digits, RadixOf(m.form));
    if c.Converted? {
      assert 0 <= c.value ==> c.value == n;
      if n <= Int32Max {
        assert c.value == n;
      } else {
        assert (c.value - n) % TwoTo32 == 0;
        assert c.value == n - TwoTo32;
      }
    }
  }

  /** The tokens' code points, in token order. */
  function CodePointsOf(ts: seq<string>): seq<int> {
    if ts == [] then []
    else
      var v := Classify(ts[|ts| - 1]);
      CodePointsOf(ts[..|ts| - 1]) + (if v.Accepted? then [v.codePoint] else [])
  }

  /** The tokens' diagnostics, in token order. */
  function DiagnosticsOf(ts: seq<string>): seq<string> {
    if ts == [] then []
    else
      var v := Classify(ts[|ts| - 1]);
      DiagnosticsOf(ts[..|ts| - 1]) + (if v.Diagnosed? then [v.message] else [])
  }

  /** Every code point the parser returns lies in 0..0x10FFFF. */
  lemma {:induction false} CodePointsInRange(ts: seq<string>)
    ensures AllCodePoints(CodePointsOf(ts))
  {
    if ts != [] {
      CodePointsInRange(ts[..|ts| - 1]);
    }
  }

  /** Each token lands in exactly one of the two lists. */
  lemma {:induction false} EachTokenCountedOnce(ts: seq<string>)
    ensures |CodePointsOf(ts)| + |DiagnosticsOf(ts)| == |ts|
  {
    if ts != [] {
      EachTokenCountedOnce(ts[..|ts| - 1]);
    }
  }

  /** Both lists keep token order: a batch's results are its parts' results, in sequence. */
  lemma {:induction false} ParseOfConcat(a: seq<string>, b: seq<string>)
    ensures CodePointsOf(a + b) == CodePointsOf(a) + CodePointsOf(b)
    ensures DiagnosticsOf(a + b) == DiagnosticsOf(a) + DiagnosticsOf(b)
    decreases |b|
  {
    if b == [] {
      assert a + b == a;
    } else {
      var init := b[..|b| - 1];
      assert (a + b)[..|a + b| - 1] == a + init;
      assert (a + b)[|a + b| - 1] == b[|b| - 1];
      ParseOfConcat(a, init);
    }
  }

  /** Tokens that are all accepted yield their code points, in order, and no diagnostic. */
  lemma {:induction false} AllAccepted(ts: seq<string>, cps: seq<int>)
    requires |ts| == |cps|
    requires forall i :: 0 <= i < |ts| ==> Classify(ts[i]) == Accepted(cps[i])
    ensures CodePointsOf(ts) == cps && DiagnosticsOf(ts) == []
  {
    if ts != [] {
      var n := |ts|;
      var init, initCps := ts[..n - 1], cps[..n - 1];
      assert cps == initCps + [cps[n - 1]];
      forall i | 0 <= i < n - 1 ensures Classify(init[i]) == Accepted(initCps[i]) {
        assert init[i] == ts[i] && initCps[i] == cps[i];
      }
      AllAccepted(init, initCps);
      ParseStep(ts, n - 1, TokenValue(ts[n - 1]));
      assert ts[..n] == ts;
    }
  }

  /** One more token: its code point or its diagnostic goes after those of the tokens before it. */
  lemma ParseStep(ts: seq<string>, i: nat, c: Option<Conversion>)
    requires i < |ts| && c == TokenValue(ts[i])
    ensures Judge(ts[i], c).Accepted? ==>
              CodePointsOf(ts[..i + 1]) == CodePointsOf(ts[..i]) + [Judge(ts[i], c).codePoint] &&
              DiagnosticsOf(ts[..i + 1]) == DiagnosticsOf(ts[..i])
    ensures Judge(ts[i], c).Diagnosed? ==>
              CodePointsOf(ts[..i + 1]) == CodePointsOf(ts[..i]) &&
              DiagnosticsOf(ts[..i + 1]) == DiagnosticsOf(ts[..i]) + [Judge(ts[i], c).message]
  {
    assert ts[..i + 1][..i] == ts[..i];
  }

  /**
   * The chain of pattern tests for one token, in the order the parser tries
   * them: the conversion of the first matching notation's digit group, or
   * None when no pattern matches.
   */
  method ConvertToken(t: string) returns (cp: Option<Conversion>)
    ensures cp == TokenValue(t)
  {
    if Capture(t, UPlus).Some? {
      cp := Some(ToInt32(Capture(t, UPlus).value, 16));
    } else if Capture(t, ZeroX).Some? {
      cp := Some(ToInt32(Capture(t, ZeroX).value, 16));
    } else if Capture(t, HexReference).Some? {
      cp := Some(ToInt32(Capture(t, HexReference).value, 16));
    } else if Capture(t, DecimalReference).Some? {
      cp := Some(ToInt32(Capture(t, DecimalReference).value, 10));
    } else if Capture(t, BareDecimal).Some? {
      cp := Some(ToInt32(Capture(t, BareDecimal).value, 10));
    } else if Capture(t, BareHex).Some? {
      cp := Some(ToInt32(Capture(t, BareHex).value, 16));
    } else {
      cp := None;
    }
  }

  /**
   * `ParseTokensToCodePoints`: the loop over the tokens of all inputs,
   * appending each token's code point to `cps` or its diagnostic to `errors`.
   */
  method ParseTokensToCodePoints(inputs: seq<string>) returns (cps: seq<int>, errors: seq<string>)
    ensures cps == CodePointsOf(Tokenizer.Tokens(inputs))
    ensures errors == DiagnosticsOf(Tokenizer.Tokens(inputs))
    ensures AllCodePoints(cps)
    ensures |cps| + |errors| == |Tokenizer.Tokens(inputs)|
  {
    cps, errors := [], [];
    var tokens := Tokenizer.Tokens(inputs);
    for i := 0 to |tokens|
      invariant cps == CodePointsOf(tokens[..i])
      invariant errors == DiagnosticsOf(tokens[..i])
    {
      var t := tokens[i];
      var cp := ConvertToken(t);
      ParseStep(tokens, i, cp);
      if cp.None? {
        assert Judge(t, cp) == Diagnosed(UnrecognizedMessage(t));
        errors := errors + [UnrecognizedMessage(t)];
      } else if cp == Some(Overflow) {
        assert Judge(t, cp) == Diagnosed(OverflowMessage(t));
        errors := errors + [OverflowMessage(t)];
      } else {
        var val := cp.value.value;
        if val < 0 || val > MaxCodePoint {
          assert Judge(t, cp) == Diagnosed(OutOfRangeMessage(t, val));
          errors := errors + [OutOfRangeMessage(t, val)];
        } else {
          assert Judge(t, cp) == Accepted(val);
          cps := cps + [val];
        }
      }
    }
    assert tokens[..|tokens|] == tokens;
    CodePointsInRange(tokens);
    EachTokenCountedOnce(tokens);
  }
}
