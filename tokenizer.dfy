/**
  `split_case_string`: the tokenizer every converter starts from.  It
  drops the leading `_` run, marks camel/Pascal word starts with `_`
  (unless the rest holds no lower-case letter at all), turns spaces and
  dashes into `_`, lower-cases, and splits at `_`, dropping empty pieces.
*/
module Tokenizer {
  import opened Text
  import opened Prefix

  /** A token as the tokenizer produces it: non-empty, no upper-case letter, no separator. */
  predicate ValidToken(t: string)
  {
    t != [] && forall x :: x in t ==> !IsUpper(x) && x != '_' && x != '-' && x != ' '
  }

  /** `gsub(/([[:upper:]])/, '_\1')`: a `_` in front of every upper-case letter. */
  function InsertUnderscores(s: string): (r: string)
  {
    if s == [] then []
    else (if IsUpper(s[0]) then ['_', s[0]] else [s[0]]) + InsertUnderscores(s[1..])
  }

  /** The non-empty pieces between the `_` of a string: `split('_').reject(&:empty?)`. */
  function Pieces(s: string): seq<string>
  {
    RejectEmpty(RubySplit(s, "_"))
  }

  /** `split_case_string`, step by step as the source writes it. */
  function SplitCaseString(s: string): (tokens: seq<string>)
    ensures forall t :: t in tokens ==> ValidToken(t)
  {
    var s1 := WithoutLeadingUnderscores(s);
    var s2 := if IsUpperCase(s1) then s1 else InsertUnderscores(s1);
    var s3 := Gsub(s2, ' ', "_");
    var s4 := Gsub(s3, '-', "_");
    var s5 := WithoutLeadingUnderscores(s4);
    SeparatorsReplaced(s2);
    SuffixChars(s4, s5);
    PiecesOfLowered(s5);
    Pieces(LowerCase(s5))
  }

  /** After both replacements no space and no dash is left. */
  lemma SeparatorsReplaced(s: string)
    ensures var r := Gsub(Gsub(s, ' ', "_"), '-', "_"); ' ' !in r && '-' !in r
  {
    var r := Gsub(Gsub(s, ' ', "_"), '-', "_");
    assert ' ' !in Gsub(s, ' ', "_");
  }

  lemma SuffixChars(s: string, r: string)
    requires LeadingUnderscores(s) + r == s
    ensures forall x :: x in r ==> x in s
  {
    forall x | x in r ensures x in s {
      var i :| 0 <= i < |r| && r[i] == x;
      assert s[|LeadingUnderscores(s)| + i] == x;
    }
  }

  /** Once spaces and dashes are gone, every piece of the lower-cased string is a valid token. */
  lemma PiecesOfLowered(s: string)
    requires ' ' !in s && '-' !in s
    ensures forall t :: t in Pieces(LowerCase(s)) ==> ValidToken(t)
  {
    var low := LowerCase(s);
    forall x | x in low ensures !IsUpper(x) && x != ' ' && x != '-' {
      var i :| 0 <= i < |low| && low[i] == x;
      if !IsUpper(s[i]) {
        assert s[i] in s;
      }
    }
    SplitOnPieces(low, '_');
  }

  // ---------------------------------------------------------------------------
  // Properties of the tokenizer
  // ---------------------------------------------------------------------------

  /** The character-wise part of the tokenizer, with or without the word-start marking. */
  function Normalize(s: string, mark: bool): string
  {
    LowerCase(Gsub(Gsub(if mark then InsertUnderscores(s) else s, ' ', "_"), '-', "_"))
  }

  lemma {:induction false} InsertUnderscoresConcat(a: string, b: string)
    ensures InsertUnderscores(a + b) == InsertUnderscores(a) + InsertUnderscores(b)
    decreases |a|
  {
    if a != [] {
      assert (a + b)[0] == a[0];
      assert (a + b)[1..] == a[1..] + b;
      InsertUnderscoresConcat(a[1..], b);
    } else {
      assert a + b == b;
    }
  }

  /** Marking word starts adds `_` and nothing else. */
  lemma {:induction false} InsertUnderscoresChars(s: string)
    ensures forall x :: x in InsertUnderscores(s) ==> x in s || x == '_'
    decreases |s|
  {
    if s != [] {
      InsertUnderscoresChars(s[1..]);
    }
  }

  lemma {:induction false} InsertUnderscoresNoUpper(s: string)
    requires forall i :: 0 <= i < |s| ==> !IsUpper(s[i])
    ensures InsertUnderscores(s) == s
    decreases |s|
  {
    if s != [] {
      InsertUnderscoresNoUpper(s[1..]);
      assert s == [s[0]] + s[1..];
    }
  }

  lemma NormalizeConcat(a: string, b: string, mark: bool)
    ensures Normalize(a + b, mark) == Normalize(a, mark) + Normalize(b, mark)
  {
    var ia := if mark then InsertUnderscores(a) else a;
    var ib := if mark then InsertUnderscores(b) else b;
    if mark {
      InsertUnderscoresConcat(a, b);
    }
    GsubConcat(ia, ib, ' ', "_");
    GsubConcat(Gsub(ia, ' ', "_"), Gsub(ib, ' ', "_"), '-', "_");
    LowerCaseConcat(Gsub(Gsub(ia, ' ', "_"), '-', "_"), Gsub(Gsub(ib, ' ', "_"), '-', "_"));
  }

  lemma {:induction false} PiecesUnderscoreConcat(a: string, b: string)
    ensures Pieces(a + "_" + b) == Pieces(a) + Pieces(b)
  {
    SplitOnConcat(a, '_', b);
    RejectEmptyDropTrailing(SplitOn(a + "_" + b, "_"));
    RejectEmptyDropTrailing(SplitOn(a, "_"));
    RejectEmptyDropTrailing(SplitOn(b, "_"));
    RejectEmptyConcat(SplitOn(a, "_"), SplitOn(b, "_"));
  }

  lemma PiecesEmpty()
    ensures Pieces("") == []
  {
    assert SplitOn("", "_") == [""];
  }

  lemma PiecesWord(w: string)
    requires w != [] && '_' !in w
    ensures Pieces(w) == [w]
  {
    SplitOnNoSep(w, "_");
    assert DropTrailingEmpty([w]) == [w];
    assert RejectEmpty([w]) == [w] + RejectEmpty([]);
  }

  lemma {:induction false} PiecesUnderscorePrefix(u: string, b: string)
    requires forall i :: 0 <= i < |u| ==> u[i] == '_'
    ensures Pieces(u + b) == Pieces(b)
    decreases |u|
  {
    if u != [] {
      PiecesUnderscorePrefix(u[1..], b);
      PiecesUnderscoreConcat("", u[1..] + b);
      PiecesEmpty();
      assert u + b == "" + "_" + (u[1..] + b);
    } else {
      assert u + b == b;
    }
  }

  /**
    The tokenizer is the `_`-pieces of the normalized prefix-free rest; the
    second stripping of underscores in the source changes nothing.
  */
  lemma SplitCaseStringNormalize(s: string)
    ensures SplitCaseString(s) ==
      Pieces(Normalize(WithoutLeadingUnderscores(s), !IsUpperCase(WithoutLeadingUnderscores(s))))
  {
    var s1 := WithoutLeadingUnderscores(s);
    var s2 := if IsUpperCase(s1) then s1 else InsertUnderscores(s1);
    var s4 := Gsub(Gsub(s2, ' ', "_"), '-', "_");
    var u := LeadingUnderscores(s4);
    var s5 := WithoutLeadingUnderscores(s4);
    LowerCaseConcat(u, s5);
    assert LowerCase(u) == u;
    PiecesUnderscorePrefix(u, LowerCase(s5));
  }

  /**
    A rest without lower-case letters is not cut letter by letter: it splits
    exactly as its lower-cased form does, only at `_`, `-` and space.
  */
  lemma UpperInputNotShredded(s: string)
    requires IsUpperCase(WithoutLeadingUnderscores(s))
    ensures SplitCaseString(s) == SplitCaseString(LowerCase(s))
  {
    var c := WithoutLeadingUnderscores(s);
    var low := LowerCase(s);
    LowerCaseConcat(LeadingUnderscores(s), c);
    assert LowerCase(LeadingUnderscores(s)) == LeadingUnderscores(s);
    PrefixOfConcat(LeadingUnderscores(s), LowerCase(c));
    assert WithoutLeadingUnderscores(low) == LowerCase(c);
    InsertUnderscoresNoUpper(LowerCase(c));
    NormalizeLowerCase(c);
    SplitCaseStringNormalize(s);
    SplitCaseStringNormalize(low);
  }

  lemma {:induction false} NormalizeLowerCase(s: string)
    ensures Normalize(s, false) == Normalize(LowerCase(s), false)
    decreases |s|
  {
    if s != [] {
      NormalizeLowerCase(s[1..]);
      assert s == [s[0]] + s[1..];
      NormalizeConcat([s[0]], s[1..], false);
      LowerCaseConcat([s[0]], s[1..]);
      NormalizeConcat([DownChar(s[0])], LowerCase(s[1..]), false);
      assert LowerCase([s[0]]) == [DownChar(s[0])];
    }
  }

  /**
    The tokenizer invents no character: a symbol that is neither a letter nor
    `_` and does not occur in the input occurs in none of its tokens.
  */
  lemma TokensAvoid(s: string, z: char)
    requires !IsLetter(z) && z != '_' && z !in s
    ensures forall t :: t in SplitCaseString(s) ==> z !in t
  {
    var s1 := WithoutLeadingUnderscores(s);
    var s2 := if IsUpperCase(s1) then s1 else InsertUnderscores(s1);
    var s4 := Gsub(Gsub(s2, ' ', "_"), '-', "_");
    var s5 := WithoutLeadingUnderscores(s4);
    SuffixChars(s, s1);
    InsertUnderscoresChars(s1);
    SuffixChars(s4, s5);
    var low := LowerCase(s5);
    assert z !in low;
    SplitOnPieces(low, '_');
    forall t | t in SplitCaseString(s) ensures z !in t {
      assert t in RubySplit(low, "_");
      assert t in SplitOn(low, "_");
    }
  }
}
