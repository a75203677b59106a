/**
 * The program's documented inputs and outputs, as facts about the model:
 * one token in each notation, the three kinds of diagnostic, a whole
 * command line, and the byte and code point renderings.
 */
module Scenarios {
  import opened Numerals
  import opened Notation
  import opened TokenParser
  import Tokenizer
  import Utf16Be
  import Render

  // The values of the digit groups below, read off their shortest spellings.

  lemma Value0041() ensures Value("0041", 16) == 0x41 { assert Format(0x41, 16, 4) == "0041"; }
  lemma Value42() ensures Value("42", 16) == 0x42 { assert Digits(0x42, 16) == "42"; }
  lemma Value1F600() ensures Value("1F600", 16) == 0x1F600 { assert Digits(0x1F600, 16) == "1F600"; }
  lemma Value110000() ensures Value("110000", 16) == 0x110000 { assert Digits(0x110000, 16) == "110000"; }
  lemma ValueFFFFFFFF() ensures Value("FFFFFFFF", 16) == 0xFFFF_FFFF { assert Digits(0xFFFF_FFFF, 16) == "FFFFFFFF"; }
  lemma Value100000000() ensures Value("100000000", 16) == 0x1_0000_0000 { assert Digits(0x1_0000_0000, 16) == "100000000"; }
  lemma Value128512() ensures Value("128512", 10) == 128512 { assert Digits(128512, 10) == "128512"; }
  lemma Value65() ensures Value("65", 10) == 65 { assert Digits(65, 10) == "65"; }
  lemma Decimal1114112() ensures DecimalString(1114112) == "1114112" { }
  lemma DecimalMinusOne() ensures DecimalString(-1) == "-1" { }

  /** `U+0041` is the letter A. */
  lemma UPlusExample(t: string)
    requires t == "U+0041"
    ensures Classify(t) == Accepted(0x41)
  {
    var m := Match(UPlus, "0041");
    Value0041();
    assert Spells(m, t);
    SpelledCodePointAccepted(t, m);
  }

  /** `0x1F600` is U+1F600. */
  lemma ZeroXExample(t: string)
    requires t == "0x1F600"
    ensures Classify(t) == Accepted(0x1F600)
  {
    var m := Match(ZeroX, "1F600");
    Value1F600();
    assert Spells(m, t);
    SpelledCodePointAccepted(t, m);
  }

  /** `&#x1F600;` and `&#x1F600` are U+1F600: the `;` is optional. */
  lemma HexReferenceExample(t: string)
    requires t == "&#x1F600;" || t == "&#x1F600"
    ensures Classify(t) == Accepted(0x1F600)
  {
    var m := Match(HexReference, "1F600");
    Value1F600();
    assert Spells(m, t);
    SpelledCodePointAccepted(t, m);
  }

  /** `&#128512;` is U+1F600. */
  lemma DecimalReferenceExample(t: string)
    requires t == "&#128512;"
    ensures Classify(t) == Accepted(0x1F600)
  {
    var m := Match(DecimalReference, "128512");
    Value128512();
    assert Spells(m, t);
    SpelledCodePointAccepted(t, m);
  }

  /** A bare `65` is decimal: the letter A, not U+0065. */
  lemma BareDecimalExample(t: string)
    requires t == "65"
    ensures Classify(t) == Accepted(65)
  {
    var m := Match(BareDecimal, "65");
    Value65();
    assert Spells(m, t);
    SpelledCodePointAccepted(t, m);
  }

  /** A bare `1F600`, having a hex letter, is hex. */
  lemma BareHexExample(t: string)
    requires t == "1F600"
    ensures Classify(t) == Accepted(0x1F600)
  {
    var m := Match(BareHex, "1F600");
    Value1F600();
    assert Spells(m, t);
    assert !IsDecimalDigit(t[1]);
    SpelledCodePointAccepted(t, m);
  }

  lemma ValueBad(s: string)
    requires s == "bad"
    ensures AllDigits(s, 16) && Value(s, 16) == 0xBAD
  {
    var b, ba := s[..1], s[..2];
    assert b[..0] == [] && ba[..1] == b && s[..2] == ba;
    assert Value(b, 16) == 0xB;
    assert Value(ba, 16) == 0xBA;
  }

  /**
   * Bare hex is tried last, so a word made only of the letters a-f is not
   * unrecognized but a code point: `bad` is U+0BAD.
   */
  lemma LetterWordExample(t: string)
    requires t == "bad"
    ensures Classify(t) == Accepted(0xBAD)
  {
    var m := Match(BareHex, "bad");
    ValueBad(t);
    assert Spells(m, t);
    assert !IsDecimalDigit(t[0]);
    SpelledCodePointAccepted(t, m);
  }

  /** A value beyond U+10FFFF is reported with the token and the number it converted to. */
  lemma OutOfRangeExample(t: string)
    requires t == "U+110000"
    ensures Classify(t) == Diagnosed("Out of range: U+110000 -> 1114112")
  {
    var m := Match(UPlus, "110000");
    Value110000();
    OutOfRangeText(t);
    assert Spells(m, t);
    RecognizeSpelled(t, m);
    LargeNumbersDiagnosed(t);
  }

  lemma OutOfRangeText(t: string)
    requires t == "U+110000"
    ensures OutOfRangeMessage(t, 1114112) == "Out of range: U+110000 -> 1114112"
  {
    Decimal1114112();
  }

  /** Eight hex digits with the top bit set wrap to a negative number, which is out of range. */
  lemma WrappedExample(t: string)
    requires t == "0xFFFFFFFF"
    ensures Classify(t) == Diagnosed("Out of range: 0xFFFFFFFF -> -1")
  {
    var m := Match(ZeroX, "FFFFFFFF");
    ValueFFFFFFFF();
    WrappedText(t);
    assert Spells(m, t);
    RecognizeSpelled(t, m);
    LargeNumbersDiagnosed(t);
  }

  lemma WrappedText(t: string)
    requires t == "0xFFFFFFFF"
    ensures OutOfRangeMessage(t, -1) == "Out of range: 0xFFFFFFFF -> -1"
  {
    DecimalMinusOne();
  }

  /** Nine significant hex digits do not fit 32 bits. */
  lemma OverflowExample(t: string)
    requires t == "0x100000000"
    ensures Classify(t) == Diagnosed("Overflow: 0x100000000")
  {
    var m := Match(ZeroX, "100000000");
    Value100000000();
    assert Spells(m, t);
    RecognizeSpelled(t, m);
    LargeNumbersDiagnosed(t);
  }

  /** A token in no notation is reported as unrecognized, quoted. */
  lemma UnrecognizedExample(t: string)
    requires t == "xyz!"
    ensures Classify(t) == Diagnosed("Unrecognized token: 'xyz!'")
  {
    assert !IsHexDigit(t[0]);
    assert Recognize(t).None?;
  }

  /** `0x42` is the letter B. */
  lemma SecondTokenExample(t: string)
    requires t == "0x42"
    ensures Classify(t) == Accepted(0x42)
  {
    var m := Match(ZeroX, "42");
    Value42();
    assert Spells(m, t);
    SpelledCodePointAccepted(t, m);
  }

  /** `zz` is in no notation. */
  lemma BadTokenExample(t: string)
    requires t == "zz"
    ensures Classify(t) == Diagnosed("Unrecognized token: 'zz'")
  {
    assert !IsHexDigit(t[0]);
    assert Recognize(t).None?;
  }

  /**
   * A batch with a bad token in the middle: it costs one diagnostic and
   * nothing else, and the code points keep token order.
   */
  lemma BatchExample(tokens: seq<string>)
    requires tokens == ["U+0041", "zz", "0x42"]
    ensures CodePointsOf(tokens) == [0x41, 0x42]
    ensures DiagnosticsOf(tokens) == ["Unrecognized token: 'zz'"]
  {
    UPlusExample(tokens[0]);
    BadTokenExample(tokens[1]);
    SecondTokenExample(tokens[2]);
    var one, two := tokens[..1], tokens[..2];
    assert two[..1] == one && tokens[..2] == two && one[..0] == [];
    assert CodePointsOf(one) == [0x41] && DiagnosticsOf(one) == [];
    assert CodePointsOf(two) == [0x41] && DiagnosticsOf(two) == ["Unrecognized token: 'zz'"];
  }

  /** The bytes of A and U+1F600: one unit, then a surrogate pair, high byte first. */
  lemma EncodeExample(cps: seq<int>)
    requires cps == [0x41, 0x1F600]
    ensures Utf16Be.EncodedBytes(cps) == [0x00, 0x41, 0xD8, 0x3D, 0xDE, 0x00]
  {
    assert Utf16Be.EncodeCodePoint(0x41) == [0x00, 0x41];
    assert Utf16Be.EncodeCodePoint(0x1F600) == [0xD8, 0x3D, 0xDE, 0x00];
    assert cps[1..][1..] == [];
  }

  lemma HexBytesExample(bytes: seq<Numerals.Byte>)
    requires bytes == [0x00, 0x41, 0xD8, 0x3D, 0xDE, 0x00]
    ensures Render.HexBytes(bytes) == ["00", "41", "D8", "3D", "DE", "00"]
  {
    assert Render.HexByte(0x00) == "00";
    assert Render.HexByte(0x41) == "41";
    assert Render.HexByte(0xD8) == "D8";
    assert Render.HexByte(0x3D) == "3D";
    assert Render.HexByte(0xDE) == "DE";
  }

  lemma JoinExample(words: seq<string>)
    requires words == ["00", "41", "D8", "3D", "DE", "00"]
    ensures Render.Join(words, " ") == "00 41 D8 3D DE 00"
  {
    assert Render.Join(words[5..], " ") == "00";
    assert Render.Join(words[4..], " ") == "DE 00";
    assert Render.Join(words[3..], " ") == "3D DE 00";
    assert Render.Join(words[2..], " ") == "D8 3D DE 00";
    assert Render.Join(words[1..], " ") == "41 D8 3D DE 00";
  }

  /** Two hex digits per byte, one space between neighbours. */
  lemma HexDumpExample(bytes: seq<Numerals.Byte>)
    requires bytes == [0x00, 0x41, 0xD8, 0x3D, 0xDE, 0x00]
    ensures Render.HexDump(bytes) == "00 41 D8 3D DE 00"
  {
    HexBytesExample(bytes);
    JoinExample(Render.HexBytes(bytes));
  }

  lemma LabelsExample(cps: seq<int>)
    requires cps == [0x41, 0x1F600]
    ensures Render.Labels(cps) == ["U+0041", "U+1F600"]
  {
    Label0041();
    Label1F600();
  }

  lemma JoinTwo(a: string, b: string, sep: string)
    ensures Render.Join([a, b], sep) == a + sep + b
  {
    assert [a, b][1..] == [b];
  }

  /** The labels of A and U+1F600: four digits at least, more only where needed. */
  lemma CodePointListExample(cps: seq<int>)
    requires cps == [0x41, 0x1F600]
    ensures Render.CodePointList(cps) == "U+0041 U+1F600"
  {
    LabelsExample(cps);
    LabelsJoined(Render.Labels(cps));
  }

  lemma LabelsJoined(words: seq<string>)
    requires words == ["U+0041", "U+1F600"]
    ensures Render.Join(words, " ") == "U+0041 U+1F600"
  {
    JoinTwo(words[0], words[1], " ");
  }

  /** A surrogate code point is encoded as it is, and warned about. */
  lemma SurrogateExample(cps: seq<int>)
    requires cps == [0xD83D]
    ensures Utf16Be.EncodedBytes(cps) == [0xD8, 0x3D]
    ensures Utf16Be.Surrogates(cps) == [0xD83D]
  {
    assert cps[1..] == [];
    assert cps[..0] == [];
    assert Utf16Be.EncodeCodePoint(0xD83D) == [0xD8, 0x3D];
  }

  lemma Label0041() ensures Render.CodePointLabel(0x41) == "U+0041" { assert Format(0x41, 16, 4) == "0041"; }
  lemma Label1F600() ensures Render.CodePointLabel(0x1F600) == "U+1F600" { assert Format(0x1F600, 16, 4) == "1F600"; }

  lemma LabelD83D()
    ensures Render.CodePointLabel(0xD83D) == "U+D83D"
  {
    assert Format(0xD83D, 16, 4) == "D83D";
  }

  lemma SurrogateWarningExample(cp: int)
    requires cp == 0xD83D
    ensures Render.SurrogateWarning(cp) == "Warning: U+D83D is a surrogate code unit."
  {
    LabelD83D();
    WarningText(Render.CodePointLabel(cp)[2..], Render.SurrogateWarning(cp));
  }

  lemma WarningText(digits: string, text: string)
    requires digits == "D83D" && text == "Warning: U+" + digits + " is a surrogate code unit."
    ensures text == "Warning: U+D83D is a surrogate code unit."
  {
  }
}
