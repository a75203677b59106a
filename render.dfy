/**
 * What the program shows: the byte list as space-separated two-digit hex
 * (`X2`), the code points as space-separated `U+XXXX` labels (`X4`), the
 * code points as characters, and the text of the surrogate warning.
 */
module Render {
  import opened Wrappers
  import opened Unicode
  import opened Numerals
  import opened Notation
  import opened TokenParser
  import Tokenizer
  import Utf16Be

  /** `string.Join(sep, words)`: the words with one separator between neighbours. */
  function Join(words: seq<string>, sep: string): string {
    if words == [] then []
    else if |words| == 1 then words[0]
    else words[0] + sep + Join(words[1..], sep)
  }

  /** `b.ToString("X2")`: two upper-case hex digits. */
  function HexByte(b: Byte): (s: string)
    ensures |s| == 2 && IsNumeral(s, 16) && IsUpperCase(s)
    ensures Value(s, 16) == b
  {
    assert Power(16, 2) == 0x100;
    DigitsWithin(b, 16, 2);
    Format(b, 16, 2)
  }

  /** Each byte's `X2` text: two hex digits reading back as the byte. */
  function HexBytes(bytes: seq<Byte>): (words: seq<string>)
    ensures |words| == |bytes| && AllPairs(words)
    ensures forall i :: 0 <= i < |bytes| ==> IsNumeral(words[i], 16) && Value(words[i], 16) == bytes[i]
    ensures forall i :: 0 <= i < |bytes| ==> IsUpperCase(words[i])
  {
    seq(|bytes|, i requires 0 <= i < |bytes| => HexByte(bytes[i]))
  }

  /** The hex rendering of the byte list. */
  function HexDump(bytes: seq<Byte>): (s: string)
    ensures |s| == if bytes == [] then 0 else 3 * |bytes| - 1
  {
    JoinPairsLength(HexBytes(bytes));
    Join(HexBytes(bytes), " ")
  }

  /** Every word is two characters long, as `X2` writes a byte. */
  predicate AllPairs(words: seq<string>) {
    forall k :: 0 <= k < |words| ==> |words[k]| == 2
  }

  /** Two-character words joined by spaces take three characters each, less the last space. */
  lemma {:induction false} JoinPairsLength(words: seq<string>)
    requires AllPairs(words)
    ensures |Join(words, " ")| == if words == [] then 0 else 3 * |words| - 1
  {
    if |words| > 1 {
      JoinPairsLength(words[1..]);
    }
  }

  /** Word i sits at positions 3i and 3i+1, and a space follows it unless it is the last. */
  lemma {:induction false} JoinPairsAt(words: seq<string>, i: nat)
    requires AllPairs(words) && i < |words|
    ensures |Join(words, " ")| == 3 * |words| - 1
    ensures Join(words, " ")[3 * i..3 * i + 2] == words[i]
    ensures i < |words| - 1 ==> Join(words, " ")[3 * i + 2] == ' '
  {
    JoinPairsLength(words);
    if |words| > 1 {
      var p, r := words[0] + " ", Join(words[1..], " ");
      assert Join(words, " ") == p + r;
      assert |words[0]| == 2 && |p| == 3;
      if i > 0 {
        JoinPairsAt(words[1..], i - 1);
        var j := 3 * (i - 1);
        assert 3 * i == j + 3 && j + 2 <= |r|;
        assert (p + r)[j + 3] == r[j] && (p + r)[j + 4] == r[j + 1];
        assert (p + r)[j + 3..j + 5] == r[j..j + 2];
        if i < |words| - 1 {
          assert (p + r)[j + 5] == r[j + 2];
        }
      } else {
        assert (p + r)[2] == p[2] == ' ';
      }
    }
  }

  /**
   * The hex rendering is three characters per byte less the last space:
   * byte i sits at positions 3i and 3i+1, and a single space follows each
   * byte but the last.
   */
  lemma HexDumpLayout(bytes: seq<Byte>)
    ensures |HexDump(bytes)| == if bytes == [] then 0 else 3 * |bytes| - 1
    ensures forall i :: 0 <= i < |bytes| ==> HexDump(bytes)[3 * i..3 * i + 2] == HexByte(bytes[i])
    ensures forall i :: 0 <= i < |bytes| - 1 ==> HexDump(bytes)[3 * i + 2] == ' '
  {
    var words := HexBytes(bytes);
    JoinPairsLength(words);
    forall i | 0 <= i < |bytes|
      ensures HexDump(bytes)[3 * i..3 * i + 2] == HexByte(bytes[i])
      ensures i < |bytes| - 1 ==> HexDump(bytes)[3 * i + 2] == ' '
    {
      JoinPairsAt(words, i);
    }
  }

  /** `$"U+{cp:X4}"`: the label of a code point. */
  function CodePointLabel(cp: int): (s: string)
    requires 0 <= cp
    ensures |s| >= 6 && s[..2] == "U+"
    ensures IsNumeral(s[2..], 16) && IsUpperCase(s[2..]) && Value(s[2..], 16) == cp
    ensures |s| == 6 <==> cp <= 0xFFFF
    ensures |s| > 6 ==> s[2] != '0'
  {
    var digits := Format(cp, 16, 4);
    var s := "U+" + digits;
    assert s[2..] == digits;
    assert Power(16, 4) == 0x10000;
    if cp <= 0xFFFF then
      DigitsWithin(cp, 16, 4);
      s
    else
      ValueBelowPower(digits, 16);
      s
  }

  /** A label names its code point in the `U+` notation: it reads back as that code point. */
  lemma LabelReadsBack(cp: int)
    requires IsCodePoint(cp)
    ensures Classify(CodePointLabel(cp)) == Accepted(cp)
  {
    var s := CodePointLabel(cp);
    var m := Match(UPlus, s[2..]);
    assert s == Prefix(UPlus) + s[2..];
    RecognizeSpelled(s, m);
  }

  function Labels(cps: seq<int>): seq<string>
    requires AllCodePoints(cps)
  {
    seq(|cps|, i requires 0 <= i < |cps| => CodePointLabel(cps[i]))
  }

  /**
   * Every separator in s is a single space between two words: none at
   * either end, and never two in a row.
   */
  predicate SingleSpaced(s: string) {
    forall i :: 0 <= i < |s| && Tokenizer.IsSeparator(s[i]) ==>
      s[i] == ' ' && 0 < i < |s| - 1 && !Tokenizer.IsSeparator(s[i + 1])
  }

  /** Words without separators, joined by spaces, are single-spaced. */
  lemma {:induction false} JoinIsSingleSpaced(words: seq<string>)
    requires forall k :: 0 <= k < |words| ==> words[k] != [] && Tokenizer.HasNoSeparator(words[k])
    ensures words != [] ==> Join(words, " ") != []
    ensures SingleSpaced(Join(words, " "))
  {
    if |words| == 1 {
      assert SingleSpaced(words[0]) by {
        forall i | 0 <= i < |words[0]| ensures !Tokenizer.IsSeparator(words[0][i]) {
          assert Tokenizer.HasNoSeparator(words[0]);
        }
      }
    } else if |words| > 1 {
      var w, rest := words[0], Join(words[1..], " ");
      JoinIsSingleSpaced(words[1..]);
      var s := w + " " + rest;
      assert Join(words, " ") == s;
      assert Tokenizer.HasNoSeparator(w);
      forall i | 0 <= i < |s| && Tokenizer.IsSeparator(s[i])
        ensures s[i] == ' ' && 0 < i < |s| - 1 && !Tokenizer.IsSeparator(s[i + 1])
      {
        if i > |w| {
          assert s[i] == rest[i - |w| - 1];
          assert s[i + 1] == rest[i - |w|];
        } else if i == |w| {
          assert s[i + 1] == rest[0];
        }
      }
    }
  }

  /** The code point rendering. */
  function CodePointList(cps: seq<int>): (s: string)
    requires AllCodePoints(cps)
    ensures Tokenizer.Tokens([s]) == Labels(cps)
    ensures SingleSpaced(s)
  {
    var labels := Labels(cps);
    assert forall k :: 0 <= k < |labels| ==> labels[k] != [] && Tokenizer.HasNoSeparator(labels[k]) by {
      forall k | 0 <= k < |labels|
        ensures labels[k] != [] && Tokenizer.HasNoSeparator(labels[k])
      {
        LabelIsWord(cps[k]);
      }
    }
    TokensOfJoin(labels);
    JoinIsSingleSpaced(labels);
    Join(labels, " ")
  }

  /** Words without separators, joined by spaces, split back into the same words. */
  lemma {:induction false} TokensOfJoin(words: seq<string>)
    requires forall k :: 0 <= k < |words| ==> words[k] != [] && Tokenizer.HasNoSeparator(words[k])
    ensures Tokenizer.Tokens([Join(words, " ")]) == words
  {
    if words == [] {
      assert Tokenizer.Split([]) == [[]];
      assert Tokenizer.Tokens([[]]) == Tokenizer.DropBlank([[]]) + Tokenizer.Tokens([]);
    } else if |words| == 1 {
      Tokenizer.TokensOfWord(words[0]);
    } else {
      var rest := Join(words[1..], " ");
      assert Join(words, " ") == words[0] + [' '] + rest;
      Tokenizer.TokensAcrossSeparator(words[0], ' ', rest);
      Tokenizer.TokensOfWord(words[0]);
      TokensOfJoin(words[1..]);
    }
  }

  lemma LabelIsWord(cp: int)
    requires 0 <= cp
    ensures CodePointLabel(cp) != [] && Tokenizer.HasNoSeparator(CodePointLabel(cp))
  {
    PrefixedNumeralIsWord(CodePointLabel(cp));
  }

  /** `U+` and hex digits: no character of it is a separator. */
  lemma PrefixedNumeralIsWord(s: string)
    requires |s| >= 2 && s[..2] == "U+" && IsNumeral(s[2..], 16)
    ensures s != [] && Tokenizer.HasNoSeparator(s)
  {
    forall i | 0 <= i < |s| ensures !Tokenizer.IsSeparator(s[i]) {
      if i >= 2 {
        assert s[i] == s[2..][i - 2];
        assert IsHexDigit(s[i]);
      } else {
        assert s[i] == "U+"[i];
      }
    }
  }

  lemma ParseLabels(cps: seq<int>)
    requires AllCodePoints(cps)
    ensures CodePointsOf(Labels(cps)) == cps
    ensures DiagnosticsOf(Labels(cps)) == []
  {
    forall i | 0 <= i < |cps| ensures Classify(Labels(cps)[i]) == Accepted(cps[i]) {
      LabelReadsBack(cps[i]);
    }
    AllAccepted(Labels(cps), cps);
  }

  /**
   * The code point rendering is itself valid input: given back to the
   * parser it yields the same code points, in order, and no diagnostic.
   */
  lemma CodePointListReadsBack(cps: seq<int>)
    requires AllCodePoints(cps)
    ensures var tokens := Tokenizer.Tokens([CodePointList(cps)]);
            CodePointsOf(tokens) == cps && DiagnosticsOf(tokens) == []
  {
    ParseLabels(cps);
  }

  /** The text of the warning for a surrogate code point. */
  function SurrogateWarning(cp: int): (s: string)
    requires 0 <= cp
    ensures |s| >= 41 && s[..11] == "Warning: U+" && s[|s| - 26..] == " is a surrogate code unit."
    ensures IsNumeral(s[11..|s| - 26], 16) && Value(s[11..|s| - 26], 16) == cp
    ensures |s| == 41 <==> cp <= 0xFFFF
    ensures IsUpperCase(s[11..|s| - 26])
    ensures |s| > 41 ==> s[11] != '0'
  {
    var digits := CodePointLabel(cp)[2..];
    WarningLayout(digits, cp);
    "Warning: U+" + digits + " is a surrogate code unit."
  }

  /** Where the digits of a label sit in the warning text. */
  lemma WarningLayout(digits: string, cp: int)
    requires IsNumeral(digits, 16) && IsUpperCase(digits) && Value(digits, 16) == cp
    requires |digits| >= 4 && (|digits| == 4 <==> cp <= 0xFFFF) && (|digits| > 4 ==> digits[0] != '0')
    ensures var s := "Warning: U+" + digits + " is a surrogate code unit.";
            |s| >= 41 && s[..11] == "Warning: U+" && s[|s| - 26..] == " is a surrogate code unit." &&
            s[11..|s| - 26] == digits && (|s| == 41 <==> cp <= 0xFFFF) && (|s| > 41 ==> s[11] != '0')
  {
    ThreeParts("Warning: U+", digits, " is a surrogate code unit.");
  }

  lemma ThreeParts(a: string, b: string, c: string)
    ensures var s := a + b + c;
            s[..|a|] == a && s[|a|..|s| - |c|] == b && s[|s| - |c|..] == c
  {
  }

  /** `char.ConvertFromUtf32(cp)`: the character, or None where .NET throws for a surrogate. */
  function DisplayChar(cp: int): (c: Option<char>)
    requires IsCodePoint(cp)
    ensures c.Some? <==> IsScalarValue(cp)
    ensures c.Some? ==> c.value as int == cp
  {
    if IsSurrogate(cp) then None else Some(cp as char)
  }

  /** The characters of all code points, or None when one of them cannot be converted. */
  function DisplayString(cps: seq<int>): (s: Option<string>)
    requires AllCodePoints(cps)
    ensures s.Some? <==> AllScalarValues(cps)
    ensures s.Some? ==> |s.value| == |cps| && forall i :: 0 <= i < |cps| ==> s.value[i] as int == cps[i]
  {
    if cps == [] then Some([])
    else
      match (DisplayChar(cps[0]), DisplayString(cps[1..]))
      case (Some(c), Some(rest)) =>
        var s := [c] + rest;
        assert forall i :: 1 <= i < |cps| ==> s[i] == rest[i - 1] && cps[i] == cps[1..][i - 1];
        Some(s)
      case (None, _) => None
      case (_, None) =>
        assert !AllScalarValues(cps) by {
          var j :| 0 <= j < |cps[1..]| && !IsScalarValue(cps[1..][j]);
          assert cps[j + 1] == cps[1..][j];
        }
        None
  }
}
