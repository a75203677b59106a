/**
 * The token stream of the command line: every argument is split on runs of
 * commas and white space (`Regex.Split(s, @"[,\s]+")`), the arguments'
 * pieces are joined in order, and blank pieces are dropped
 * (`!string.IsNullOrWhiteSpace`).
 */
module Tokenizer {

  /**
   * What `\s` matches in a .NET pattern, which is also what
   * `char.IsWhiteSpace` accepts: U+0009..U+000D, U+0085 and the Unicode
   * separator categories Zs, Zl and Zp.
   */
  predicate IsWhiteSpace(c: char) {
    '\t' <= c <= '\r' || c == ' ' || c == '\U{0085}' || c == '\U{00A0}' || c == '\U{1680}'
    || '\U{2000}' <= c <= '\U{200A}' || c == '\U{2028}' || c == '\U{2029}' || c == '\U{202F}'
    || c == '\U{205F}' || c == '\U{3000}'
  }

  /** `[,\s]` */
  predicate IsSeparator(c: char) {
    c == ',' || IsWhiteSpace(c)
  }

  predicate HasNoSeparator(s: string) {
    forall i :: 0 <= i < |s| ==> !IsSeparator(s[i])
  }

  /** s without the run of separators it starts with. */
  function SkipSeparators(s: string): (rest: string)
    ensures |rest| <= |s| && rest == s[|s| - |rest|..]
    ensures forall i :: 0 <= i < |s| - |rest| ==> IsSeparator(s[i])
    ensures rest == [] || !IsSeparator(rest[0])
  {
    if s != [] && IsSeparator(s[0]) then SkipSeparators(s[1..]) else s
  }

  /**
   * `Regex.Split(s, @"[,\s]+")` with `piece` already read: the pieces between
   * maximal runs of separators, in order. A run at the start or the end of s
   * leaves an empty piece there, and s without a separator is one piece.
   */
  function SplitFrom(s: string, piece: string): (pieces: seq<string>)
    requires HasNoSeparator(piece)
    ensures |pieces| >= 1
    ensures forall k :: 0 <= k < |pieces| ==> HasNoSeparator(pieces[k])
    decreases |s|
  {
    if s == [] then [piece]
    else if IsSeparator(s[0]) then [piece] + SplitFrom(SkipSeparators(s), [])
    else SplitFrom(s[1..], piece + [s[0]])
  }

  function Split(s: string): seq<string> {
    SplitFrom(s, [])
  }

  predicate IsNullOrWhiteSpace(s: string) {
    forall i :: 0 <= i < |s| ==> IsWhiteSpace(s[i])
  }

  /** `.Where(s => !string.IsNullOrWhiteSpace(s))` */
  function DropBlank(pieces: seq<string>): (kept: seq<string>)
    ensures forall k :: 0 <= k < |kept| ==> kept[k] in pieces && !IsNullOrWhiteSpace(kept[k])
  {
    if pieces == [] then []
    else (if IsNullOrWhiteSpace(pieces[0]) then [] else [pieces[0]]) + DropBlank(pieces[1..])
  }

  /** The tokens of all arguments, in argument order; each is non-empty and holds no separator. */
  function Tokens(inputs: seq<string>): (tokens: seq<string>)
    ensures forall k :: 0 <= k < |tokens| ==> tokens[k] != [] && HasNoSeparator(tokens[k])
  {
    if inputs == [] then []
    else
      var pieces := Split(inputs[0]);
      var kept := DropBlank(pieces);
      assert forall k :: 0 <= k < |kept| ==> kept[k] != [] && HasNoSeparator(kept[k]) by {
        forall k | 0 <= k < |kept| ensures kept[k] != [] && HasNoSeparator(kept[k]) {
          var j :| 0 <= j < |pieces| && pieces[j] == kept[k];
        }
      }
      kept + Tokens(inputs[1..])
  }

  /** The characters of all strings, in order. */
  function Concat(strings: seq<string>): string {
    if strings == [] then [] else strings[0] + Concat(strings[1..])
  }

  /** s with every separator removed. */
  function WithoutSeparators(s: string): string {
    if s == [] then []
    else (if IsSeparator(s[0]) then [] else [s[0]]) + WithoutSeparators(s[1..])
  }

  lemma {:induction false} DropBlankConcat(a: seq<string>, b: seq<string>)
    ensures DropBlank(a + b) == DropBlank(a) + DropBlank(b)
  {
    if a == [] {
      assert a + b == b;
    } else {
      var head := if IsNullOrWhiteSpace(a[0]) then [] else [a[0]];
      assert (a + b)[0] == a[0];
      assert (a + b)[1..] == a[1..] + b;
      DropBlankConcat(a[1..], b);
      assert DropBlank(a + b) == head + (DropBlank(a[1..]) + DropBlank(b));
    }
  }

  /** Arguments are tokenized independently and their tokens kept in argument order. */
  lemma {:induction false} TokensOfConcat(a: seq<string>, b: seq<string>)
    ensures Tokens(a + b) == Tokens(a) + Tokens(b)
  {
    if a == [] {
      assert a + b == b;
    } else {
      assert (a + b)[0] == a[0];
      assert (a + b)[1..] == a[1..] + b;
      TokensOfConcat(a[1..], b);
      var kept := DropBlank(Split(a[0]));
      assert Tokens(a + b) == kept + (Tokens(a[1..]) + Tokens(b));
    }
  }

  /** From an empty piece on, a leading run of separators changes no token. */
  lemma LeadingSeparatorsAreDropped(s: string)
    ensures DropBlank(SplitFrom(SkipSeparators(s), [])) == DropBlank(SplitFrom(s, []))
  {
    if s != [] && IsSeparator(s[0]) {
      DropBlankConcat([[]], SplitFrom(SkipSeparators(s), []));
    }
  }

  /** Text around a separator falls into separate tokens: a token never spans a separator. */
  lemma {:induction false} SplitAtSeparator(a: string, c: char, b: string, piece: string)
    requires IsSeparator(c) && HasNoSeparator(piece)
    ensures DropBlank(SplitFrom(a + [c] + b, piece))
         == DropBlank(SplitFrom(a, piece)) + DropBlank(SplitFrom(b, []))
    decreases |a|, 1
  {
    if a == [] {
      SplitAtSeparatorFirst(c, b, piece);
    } else if IsSeparator(a[0]) {
      SplitAtSeparatorAfterRun(a, c, b, piece);
    } else {
      var s := a + [c] + b;
      assert s[0] == a[0] && s[1..] == a[1..] + [c] + b;
      var longer := piece + [a[0]];
      assert HasNoSeparator(longer) by {
        forall i | 0 <= i < |longer| ensures !IsSeparator(longer[i]) {
          if i < |piece| { assert longer[i] == piece[i]; }
        }
      }
      assert SplitFrom(s, piece) == SplitFrom(a[1..] + [c] + b, longer);
      assert SplitFrom(a, piece) == SplitFrom(a[1..], longer);
      SplitAtSeparator(a[1..], c, b, longer);
    }
  }

  lemma SplitAtSeparatorFirst(c: char, b: string, piece: string)
    requires IsSeparator(c) && HasNoSeparator(piece)
    ensures DropBlank(SplitFrom([c] + b, piece)) == DropBlank(SplitFrom([], piece)) + DropBlank(SplitFrom(b, []))
  {
    var s := [c] + b;
    assert s[0] == c && s[1..] == b;
    assert SkipSeparators(s) == SkipSeparators(b);
    var rest := SplitFrom(SkipSeparators(b), []);
    assert SplitFrom(s, piece) == [piece] + rest;
    LeadingSeparatorsAreDropped(b);
    DropBlankConcat([piece], rest);
  }

  lemma {:induction false} SplitAtSeparatorAfterRun(a: string, c: char, b: string, piece: string)
    requires IsSeparator(c) && HasNoSeparator(piece)
    requires a != [] && IsSeparator(a[0])
    ensures DropBlank(SplitFrom(a + [c] + b, piece))
         == DropBlank(SplitFrom(a, piece)) + DropBlank(SplitFrom(b, []))
    decreases |a|, 0
  {
    var s := a + [c] + b;
    assert s[0] == a[0] && s[1..] == a[1..] + [c] + b;
    var x := DropBlank([piece]);
    var y := DropBlank(SplitFrom(a[1..], []));
    var z := DropBlank(SplitFrom(b, []));
    SplitAfterSeparator(s, piece);
    assert DropBlank(SplitFrom(s, piece)) == x + DropBlank(SplitFrom(a[1..] + [c] + b, []));
    SplitAtSeparator(a[1..], c, b, []);
    assert DropBlank(SplitFrom(s, piece)) == x + (y + z);
    SplitAfterSeparator(a, piece);
    assert DropBlank(SplitFrom(a, piece)) == x + y;
    AppendIsAssociative(x, y, z);
  }

  /** Kept apart: stated inline, next to the unfoldings above, this step costs the solver far more. */
  lemma AppendIsAssociative(x: seq<string>, y: seq<string>, z: seq<string>)
    ensures x + (y + z) == (x + y) + z
  {
  }

  /** A separator ends the piece being read; what follows is split afresh. */
  lemma SplitAfterSeparator(t: string, piece: string)
    requires t != [] && IsSeparator(t[0]) && HasNoSeparator(piece)
    ensures DropBlank(SplitFrom(t, piece)) == DropBlank([piece]) + DropBlank(SplitFrom(t[1..], []))
  {
    assert SkipSeparators(t) == SkipSeparators(t[1..]);
    var rest := SplitFrom(SkipSeparators(t), []);
    assert SplitFrom(t, piece) == [piece] + rest;
    DropBlankConcat([piece], rest);
    LeadingSeparatorsAreDropped(t[1..]);
  }

  /** Two texts joined by a separator tokenize to the tokens of the first, then those of the second. */
  lemma TokensAcrossSeparator(a: string, c: char, b: string)
    requires IsSeparator(c)
    ensures Tokens([a + [c] + b]) == Tokens([a]) + Tokens([b])
  {
    SplitAtSeparator(a, c, b, []);
    TokensOfOne(a + [c] + b);
    TokensOfOne(a);
    TokensOfOne(b);
  }

  lemma TokensOfOne(s: string)
    ensures Tokens([s]) == DropBlank(Split(s))
  {
    assert [s][1..] == [];
  }

  /** Text without separators continues the piece being read. */
  lemma {:induction false} SplitWord(s: string, piece: string)
    requires HasNoSeparator(s) && HasNoSeparator(piece)
    ensures SplitFrom(s, piece) == [piece + s]
    decreases |s|
  {
    if s == [] {
      assert piece + s == piece;
    } else {
      assert !IsSeparator(s[0]);
      var longer := piece + [s[0]];
      assert HasNoSeparator(longer) by {
        forall i | 0 <= i < |longer| ensures !IsSeparator(longer[i]) {
          if i < |piece| { assert longer[i] == piece[i]; }
        }
      }
      assert HasNoSeparator(s[1..]) by {
        forall i | 0 <= i < |s| - 1 ensures !IsSeparator(s[1..][i]) {
          assert s[1..][i] == s[i + 1];
        }
      }
      SplitWord(s[1..], longer);
      assert SplitFrom(s, piece) == SplitFrom(s[1..], longer);
      assert longer + s[1..] == piece + s;
    }
  }

  /** A non-empty argument without separators is exactly one token. */
  lemma TokensOfWord(s: string)
    requires s != [] && HasNoSeparator(s)
    ensures Tokens([s]) == [s]
  {
    SplitWord(s, []);
    assert [] + s == s;
    assert Split(s) == [s];
    assert Tokens([s]) == DropBlank([s]) + Tokens([]);
    assert !IsNullOrWhiteSpace(s) by {
      assert !IsSeparator(s[0]);
    }
  }

  lemma {:induction false} SkipSeparatorsKeepsText(s: string)
    ensures WithoutSeparators(SkipSeparators(s)) == WithoutSeparators(s)
  {
    if s != [] && IsSeparator(s[0]) {
      SkipSeparatorsKeepsText(s[1..]);
    }
  }

  lemma {:induction false} SplitKeepsText(s: string, piece: string)
    requires HasNoSeparator(piece)
    ensures Concat(SplitFrom(s, piece)) == piece + WithoutSeparators(s)
    decreases |s|
  {
    if s == [] {
    } else if IsSeparator(s[0]) {
      var rest := SplitFrom(SkipSeparators(s), []);
      SplitKeepsText(SkipSeparators(s), []);
      SkipSeparatorsKeepsText(s);
      assert ([piece] + rest)[1..] == rest;
    } else {
      assert HasNoSeparator(piece + [s[0]]) by {
        forall i | 0 <= i < |piece| + 1 ensures !IsSeparator((piece + [s[0]])[i]) {
        }
      }
      SplitKeepsText(s[1..], piece + [s[0]]);
    }
  }

  /** A piece without separators is blank only when it is empty. */
  lemma BlankPieceIsEmpty(p: string)
    requires HasNoSeparator(p)
    ensures IsNullOrWhiteSpace(p) <==> p == []
  {
    if p != [] {
      assert !IsSeparator(p[0]);
    }
  }

  /** Dropping blank pieces loses no character when no piece holds a separator. */
  lemma {:induction false} DropBlankKeepsText(pieces: seq<string>)
    requires forall k :: 0 <= k < |pieces| ==> HasNoSeparator(pieces[k])
    ensures Concat(DropBlank(pieces)) == Concat(pieces)
  {
    if pieces != [] {
      var rest := pieces[1..];
      assert forall k :: 0 <= k < |rest| ==> HasNoSeparator(rest[k]) by {
        forall k | 0 <= k < |rest| ensures HasNoSeparator(rest[k]) {
          assert rest[k] == pieces[k + 1];
        }
      }
      DropBlankKeepsText(rest);
      BlankPieceIsEmpty(pieces[0]);
      if IsNullOrWhiteSpace(pieces[0]) {
        assert DropBlank(pieces) == DropBlank(rest);
        assert Concat(pieces) == [] + Concat(rest);
      } else {
        assert DropBlank(pieces) == [pieces[0]] + DropBlank(rest);
        assert ([pieces[0]] + DropBlank(rest))[1..] == DropBlank(rest);
      }
    }
  }

  /** The tokens of an argument, read in order, are its text with the separators removed. */
  lemma TokensKeepText(s: string)
    ensures Concat(Tokens([s])) == WithoutSeparators(s)
  {
    SplitKeepsText(s, []);
    DropBlankKeepsText(Split(s));
    assert [s][1..] == [];
    assert DropBlank(Split(s)) + [] == DropBlank(Split(s));
  }
}
