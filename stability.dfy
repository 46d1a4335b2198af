/**
  Converting does not lose words: for every style whose converter puts a
  separator between tokens (and for the sentence style), tokenizing the
  result gives back the tokens of the input.  Hence those converters are
  idempotent.  The concatenating styles (Pascal and camel) are not: the
  tokenizer cannot find word starts in a run of capitals or digits.
*/
module Stability {
  import opened Text
  import opened Prefix
  import opened Tokenizer
  import opened CaseRegistry
  import opened Converter

  /** One character normalizes to its downcase, after a `_` when it starts a marked word. */
  lemma NormalizeChar(x: char, mark: bool)
    requires x != ' ' && x != '-'
    ensures Normalize([x], mark) == (if mark && IsUpper(x) then "_" + [DownChar(x)] else [DownChar(x)])
  {
    var i := if mark then InsertUnderscores([x]) else [x];
    assert InsertUnderscores([x]) == (if IsUpper(x) then ['_', x] else [x]) + InsertUnderscores([]);
    GsubAbsent(i, ' ', "_");
    GsubAbsent(i, '-', "_");
  }

  /** A separator of a converted string normalizes to `_`. */
  lemma NormalizeSeparator(c: char, mark: bool)
    requires c in "_- "
    ensures Normalize([c], mark) == "_"
  {
    assert InsertUnderscores([c]) == [c] + InsertUnderscores([]);
    assert Gsub([c], ' ', "_") == (if c == ' ' then "_" else [c]) + Gsub([], ' ', "_");
    var g := Gsub([c], ' ', "_");
    assert g == "_" || g == [c];
    assert Gsub("_", '-', "_") == "_" + Gsub([], '-', "_");
    assert Gsub([c], '-', "_") == (if c == '-' then "_" else [c]) + Gsub([], '-', "_");
  }

  /**
    If each piece on its own normalizes to exactly its token, the join of the
    pieces at a separator normalizes to the token list.
  */
  lemma {:induction false} PiecesOfJoin(parts: seq<string>, c: char, mark: bool, a: seq<string>)
    requires c in "_- " && |parts| == |a|
    requires forall i :: 0 <= i < |parts| ==> Pieces(Normalize(parts[i], mark)) == [a[i]]
    ensures Pieces(Normalize(Join(parts, [c]), mark)) == a
    decreases |parts|
  {
    if parts == [] {
      assert Normalize("", mark) == "" by {
        assert InsertUnderscores("") == "";
      }
      PiecesEmpty();
    } else if |parts| > 1 {
      var rest := Join(parts[1..], [c]);
      PiecesOfJoin(parts[1..], c, mark, a[1..]);
      assert Join(parts, [c]) == parts[0] + [c] + rest;
      NormalizeConcat(parts[0] + [c], rest, mark);
      NormalizeConcat(parts[0], [c], mark);
      NormalizeSeparator(c, mark);
      PiecesUnderscoreConcat(Normalize(parts[0], mark), Normalize(rest, mark));
      assert a == [a[0]] + a[1..];
    }
  }

  /** A token normalizes to itself. */
  lemma TokenPieces(t: string, mark: bool)
    requires ValidToken(t)
    ensures Pieces(Normalize(t, mark)) == [t]
  {
    forall i | 0 <= i < |t| ensures !IsUpper(t[i]) && t[i] != ' ' && t[i] != '-' && t[i] != '_' {
      assert t[i] in t;
    }
    InsertUnderscoresNoUpper(t);
    GsubAbsent(t, ' ', "_");
    GsubAbsent(t, '-', "_");
    TokenLower(t);
    PiecesWord(t);
  }

  /** An upcased token, not split at word starts, normalizes to its token. */
  lemma UpperTokenPieces(t: string)
    requires ValidToken(t)
    ensures Pieces(Normalize(UpperCase(t), false)) == [t]
  {
    TokenUpper(t);
    GsubAbsent(UpperCase(t), ' ', "_");
    GsubAbsent(UpperCase(t), '-', "_");
    PiecesWord(t);
  }

  /** A capitalized token normalizes to its token, whether or not word starts are marked. */
  lemma CapitalTokenPieces(t: string, mark: bool)
    requires ValidToken(t)
    ensures Pieces(Normalize(Capital(t, false), mark)) == [t]
  {
    TokenPieces(t, mark);
    CapitalNormalize(t, mark);
    if mark && IsLower(t[0]) {
      PiecesUnderscorePrefix("_", Normalize(t, mark));
    }
  }

  /** Capitalizing a token adds at most a `_` in front of its normal form. */
  lemma CapitalNormalize(t: string, mark: bool)
    requires ValidToken(t)
    ensures Normalize(Capital(t, false), mark) ==
      (if mark && IsLower(t[0]) then "_" + Normalize(t, mark) else Normalize(t, mark))
  {
    assert t[0] in t;
    assert Capital(t, false) == [UpChar(t[0])] + t[1..];
    assert t == [t[0]] + t[1..];
    UpcasedHead(t[0], t[1..], mark);
  }

  lemma UpcasedHead(x: char, tail: string, mark: bool)
    requires !IsUpper(x) && x != ' ' && x != '-'
    ensures Normalize([UpChar(x)] + tail, mark) ==
      (if mark && IsLower(x) then "_" + Normalize([x] + tail, mark) else Normalize([x] + tail, mark))
  {
    if IsLower(x) {
      UpcasedLetter(x, tail, mark);
    } else {
      assert [UpChar(x)] + tail == [x] + tail;
    }
  }

  lemma UpcasedLetter(x: char, tail: string, mark: bool)
    requires IsLower(x)
    ensures Normalize([UpChar(x)] + tail, mark) == (if mark then "_" else "") + Normalize([x] + tail, mark)
  {
    var n := Normalize(tail, mark);
    NormalizeConcat([UpChar(x)], tail, mark);
    NormalizeChar(UpChar(x), mark);
    assert DownChar(UpChar(x)) == x;
    NormalizeConcat([x], tail, mark);
    NormalizeChar(x, mark);
    assert (if mark then "_" else "") + [x] + n == (if mark then "_" else "") + ([x] + n);
  }

  /**
    A string made of a `_` run and a join of pieces that each normalize to
    one token tokenizes to those tokens.
  */
  lemma TokensOfJoin(s: string, preserve: bool, parts: seq<string>, c: char, a: seq<string>)
    requires c in "_- " && |parts| == |a| && Separable(parts, c)
    requires forall i :: 0 <= i < |parts| ==> Pieces(Normalize(parts[i], !IsUpperCase(Join(parts, [c])))) == [a[i]]
    ensures SplitCaseString(WithPrefix(s, preserve, Join(parts, [c]))) == a
  {
    var j := Join(parts, [c]);
    if parts != [] {
      JoinHead(parts, [c]);
      assert parts[0][0] in parts[0];
    }
    Reattach(s, preserve, j);
    SplitCaseStringNormalize(WithPrefix(s, preserve, j));
    PiecesOfJoin(parts, c, !IsUpperCase(j), a);
  }

  // ---------------------------------------------------------------------------
  // Token stability of the converters
  // ---------------------------------------------------------------------------

  lemma PlainStable(s: string, preserve: bool, c: char)
    requires c in "_- "
    ensures SplitCaseString(WithPrefix(s, preserve, Join(SplitCaseString(s), [c]))) == SplitCaseString(s)
  {
    var a := SplitCaseString(s);
    var mark := !IsUpperCase(Join(a, [c]));
    TokensOfSplit(s);
    forall i | 0 <= i < |a| ensures Pieces(Normalize(a[i], mark)) == [a[i]] {
      TokenPieces(a[i], mark);
    }
    TokensOfJoin(s, preserve, a, c, a);
  }

  /** Upper-cased tokens joined by a separator tokenize back to the tokens. */
  lemma UpperTokensJoin(s: string, preserve: bool, a: seq<string>, c: char)
    requires Tokens(a) && c in "_- "
    ensures SplitCaseString(WithPrefix(s, preserve, Join(MapUpper(a), [c]))) == a
  {
    var parts := MapUpper(a);
    UpperSeparable(a, c);
    UpperCaseJoin(a, [c]);
    assert IsUpperCase(Join(parts, [c]));
    forall i | 0 <= i < |a| ensures Pieces(Normalize(parts[i], false)) == [a[i]] {
      UpperTokenPieces(a[i]);
    }
    TokensOfJoin(s, preserve, parts, c, a);
  }

  lemma UpperStable(s: string, preserve: bool, c: char)
    requires c in "_- "
    ensures SplitCaseString(WithPrefix(s, preserve, Join(MapUpper(SplitCaseString(s)), [c]))) == SplitCaseString(s)
  {
    TokensOfSplit(s);
    UpperTokensJoin(s, preserve, SplitCaseString(s), c);
  }

  lemma CapitalStable(s: string, preserve: bool, c: char)
    requires c in "_- "
    ensures SplitCaseString(WithPrefix(s, preserve, Join(MapCapital(SplitCaseString(s)), [c]))) == SplitCaseString(s)
  {
    var a := SplitCaseString(s);
    var parts := MapCapital(a);
    var mark := !IsUpperCase(Join(parts, [c]));
    TokensOfSplit(s);
    CapitalSeparable(a, c);
    forall i | 0 <= i < |a| ensures Pieces(Normalize(parts[i], mark)) == [a[i]] {
      CapitalTokenPieces(a[i], mark);
    }
    TokensOfJoin(s, preserve, parts, c, a);
  }

  /** Capitalizing a join capitalizes its first piece. */
  lemma CapitalJoin(a: seq<string>, sep: string)
    requires a != [] && a[0] != []
    ensures Capital(Join(a, sep), false) == Join([Capital(a[0], false)] + a[1..], sep)
  {
    var parts := [Capital(a[0], false)] + a[1..];
    assert parts[1..] == a[1..];
    JoinHead(a, sep);
    if |a| > 1 {
      assert Join(a, sep) == a[0] + sep + Join(a[1..], sep);
      assert Capital(Join(a, sep), false) == Capital(a[0], false) + sep + Join(a[1..], sep);
    }
  }

  lemma SentenceStable(s: string, preserve: bool)
    ensures SplitCaseString(SentenceCase(s, preserve)) == SplitCaseString(s)
  {
    var a := SplitCaseString(s);
    TokensOfSplit(s);
    if a == [] {
      assert Join(a, " ") == "";
      PlainStable(s, preserve, ' ');
    } else {
      CapitalJoin(a, " ");
      SentenceWords(s, preserve, a);
    }
  }

  lemma SentenceWords(s: string, preserve: bool, a: seq<string>)
    requires Tokens(a) && a != []
    ensures SplitCaseString(WithPrefix(s, preserve, Join([Capital(a[0], false)] + a[1..], " "))) == a
  {
    var parts := [Capital(a[0], false)] + a[1..];
    SentenceParts(a, !IsUpperCase(Join(parts, " ")));
    TokenCapital(a[0]);
    TokensOfJoin(s, preserve, parts, ' ', a);
  }

  lemma SentenceParts(a: seq<string>, mark: bool)
    requires Tokens(a) && a != []
    ensures var parts := [Capital(a[0], false)] + a[1..];
      forall i :: 0 <= i < |a| ==> Pieces(Normalize(parts[i], mark)) == [a[i]]
  {
    var parts := [Capital(a[0], false)] + a[1..];
    forall i | 0 <= i < |a| ensures Pieces(Normalize(parts[i], mark)) == [a[i]] {
      if i == 0 {
        CapitalTokenPieces(a[0], mark);
      } else {
        TokenPieces(a[i], mark);
      }
    }
  }

  /**
    Tokenizing the result of a separating converter gives the tokens of the
    input back: no word is merged, split, lost or added.
  */
  lemma ConvertKeepsTokens(s: string, t: PlainCase, preserve: bool)
    requires t != Pascal && t != Camel
    ensures SplitCaseString(Convert(s, t, preserve)) == SplitCaseString(s)
  {
    match t
    case Snake => PlainStable(s, preserve, '_');
    case UpperSnake => UpperStable(s, preserve, '_');
    case Dash => PlainStable(s, preserve, '-');
    case UpperDash =>
      UpperStable(s, preserve, '-');
      TokensOfSplit(s);
      UpperAssembled(s, preserve, SplitCaseString(s), '-');
    case Train => CapitalStable(s, preserve, '-');
    case Word => PlainStable(s, preserve, ' ');
    case UpperWord => UpperStable(s, preserve, ' ');
    case CapitalWord => CapitalStable(s, preserve, ' ');
    case Sentence => SentenceStable(s, preserve);
  }

  /** A converter sees its input only through the tokens and, when it keeps it, the `_` prefix. */
  lemma ConvertByTokens(x: string, y: string, t: PlainCase, preserve: bool)
    requires SplitCaseString(x) == SplitCaseString(y)
    requires preserve ==> LeadingUnderscores(x) == LeadingUnderscores(y)
    ensures Convert(x, t, preserve) == Convert(y, t, preserve)
  {
  }

  /** The separating converters are idempotent. */
  lemma ConvertIdempotent(s: string, t: PlainCase, preserve: bool)
    requires t != Pascal && t != Camel
    ensures Convert(Convert(s, t, preserve), t, preserve) == Convert(s, t, preserve)
  {
    ConvertKeepsTokens(s, t, preserve);
    ConvertByTokens(Convert(s, t, preserve), s, t, preserve);
  }

  /**
    The Pascal converter is not: two letters around `_` (`a_b`) give two capitals (`AB`), a run the
    tokenizer keeps as one word, so converting again gives `Ab`.
  */
  lemma PascalNotIdempotent(x: char, y: char)
    requires IsLower(x) && IsLower(y)
    ensures PascalCase([x, '_', y], true) == [UpChar(x), UpChar(y)]
    ensures PascalCase([UpChar(x), UpChar(y)], true) == [UpChar(x), y]
  {
    PascalOfLetters(x, y);
    PascalOfCapitals(x, y);
  }

  lemma PascalOfLetters(x: char, y: char)
    requires IsLower(x) && IsLower(y)
    ensures PascalCase([x, '_', y], true) == [UpChar(x), UpChar(y)]
  {
    var s := [x, '_', y];
    assert s == [x] + "_" + [y];
    CapitalOf([x], [UpChar(x)]);
    CapitalOf([y], [UpChar(y)]);
    PascalOfTwoWords(s, [x], [y], [UpChar(x)], [UpChar(y)]);
  }

  lemma PascalOfTwoWords(s: string, x: string, y: string, cx: string, cy: string)
    requires ValidToken(x) && ValidToken(y) && s == x + "_" + y
    requires Capital(x, false) == cx && Capital(y, false) == cy
    ensures PascalCase(s, true) == cx + cy
  {
    TwoWordsNoPrefix(s, x, y);
    PascalOfTwoTokens(s, x, y, cx, cy);
  }

  lemma PascalOfTwoTokens(s: string, x: string, y: string, cx: string, cy: string)
    requires SplitCaseString(s) == [x, y] && LeadingUnderscores(s) == ""
    requires Capital(x, false) == cx && Capital(y, false) == cy
    ensures PascalCase(s, true) == cx + cy
  {
    CapitalsOf([x, y], [cx, cy]);
    PascalOfTokens(s, [x, y], [cx, cy]);
    JoinTwo([cx, cy], "");
  }

  /** Two words joined by `_` tokenize to those words, with no prefix to keep. */
  lemma TwoWordsNoPrefix(s: string, x: string, y: string)
    requires ValidToken(x) && ValidToken(y) && s == x + "_" + y
    ensures SplitCaseString(s) == [x, y] && LeadingUnderscores(s) == ""
  {
    TwoWords(s, x, y);
    assert s[0] == x[0] && x[0] in x;
    NoPrefix(s);
  }

  lemma PascalOfTokens(s: string, a: seq<string>, caps: seq<string>)
    requires SplitCaseString(s) == a && MapCapital(a) == caps && LeadingUnderscores(s) == ""
    ensures PascalCase(s, true) == Join(caps, "")
  {
  }

  lemma CamelOfTokens(s: string, a: seq<string>, caps: seq<string>)
    requires |a| >= 1 && SplitCaseString(s) == a && MapCapital(a[1..]) == caps && LeadingUnderscores(s) == ""
    ensures CamelCase(s, true) == Join([a[0]] + caps, "")
  {
  }

  lemma CapitalsOf(ws: seq<string>, cs: seq<string>)
    requires |ws| == |cs| && forall i :: 0 <= i < |ws| ==> Capital(ws[i], false) == cs[i]
    ensures MapCapital(ws) == cs
  {
  }

  lemma NoPrefix(s: string)
    requires s != [] && s[0] != '_'
    ensures LeadingUnderscores(s) == ""
  {
  }

  /** Two words joined by `_` tokenize to those words. */
  lemma TwoWords(s: string, x: string, y: string)
    requires ValidToken(x) && ValidToken(y) && s == x + "_" + y
    ensures SplitCaseString(s) == [x, y]
  {
    TokensOfWords([x, y], '_');
    assert Join([x, y], "_") == s;
  }

  lemma PascalOfCapitals(x: char, y: char)
    requires IsLower(x) && IsLower(y)
    ensures PascalCase([UpChar(x), UpChar(y)], true) == [UpChar(x), y]
  {
    var s := [UpChar(x), UpChar(y)];
    TokensOfCapitals(x, y);
    CapitalOf([x, y], [UpChar(x), y]);
    NoPrefix(s);
    PascalOfTokens(s, [[x, y]], [[UpChar(x), y]]);
    assert Join([[UpChar(x), y]], "") == [UpChar(x), y];
  }

  lemma CapitalOf(w: string, c: string)
    requires |w| >= 1 && |c| == |w| && c[0] == UpChar(w[0]) && c[1..] == w[1..]
    ensures Capital(w, false) == c
    ensures MapCapital([w]) == [c]
  {
    assert c == [c[0]] + c[1..];
  }

  /** Neither is the camel converter: a letter, `_` and a digit (`a_1`) give one word (`a1`). */
  lemma CamelMergesDigits(x: char, d: char)
    requires IsLower(x) && IsDigit(d)
    ensures CamelCase([x, '_', d], true) == [x, d]
    ensures SplitCaseString([x, d]) == [[x, d]]
  {
    LetterDigitToken(x, d);
    OneWord([x, d]);
    CamelOfLetterDigit(x, d);
  }

  lemma LetterDigitToken(x: char, d: char)
    requires IsLower(x) && IsDigit(d)
    ensures ValidToken([x, d])
  {
  }

  lemma CamelOfLetterDigit(x: char, d: char)
    requires IsLower(x) && IsDigit(d)
    ensures CamelCase([x, '_', d], true) == [x, d]
  {
    var s := [x, '_', d];
    assert s == [x] + "_" + [d];
    TwoWordsNoPrefix(s, [x], [d]);
    CapitalOf([d], [d]);
    CamelOfTwoTokens(s, [x], [d]);
  }

  lemma CamelOfTwoTokens(s: string, x: string, y: string)
    requires SplitCaseString(s) == [x, y] && LeadingUnderscores(s) == ""
    requires MapCapital([y]) == [y]
    ensures CamelCase(s, true) == x + y
  {
    assert [x, y][1..] == [y];
    CamelOfTokens(s, [x, y], [y]);
    JoinTwo([x, y], "");
  }

  lemma OneWord(t: string)
    requires ValidToken(t)
    ensures SplitCaseString(t) == [t]
  {
    TokensOfWords([t], '_');
    assert Join([t], "_") == t;
  }

  /** A join of tokens tokenizes to those tokens. */
  lemma TokensOfWords(a: seq<string>, c: char)
    requires Tokens(a) && c in "_- "
    ensures SplitCaseString(Join(a, [c])) == a
  {
    var mark := !IsUpperCase(Join(a, [c]));
    forall i | 0 <= i < |a| ensures Pieces(Normalize(a[i], mark)) == [a[i]] {
      TokenPieces(a[i], mark);
    }
    TokensOfJoin("", false, a, c, a);
  }

  /** Two capitals (`AB`) hold no lower-case letter, so they are one word. */
  lemma TokensOfCapitals(x: char, y: char)
    requires IsLower(x) && IsLower(y)
    ensures SplitCaseString([UpChar(x), UpChar(y)]) == [[x, y]]
  {
    var t := [x, y];
    var u := UpperCase(t);
    assert u == [UpChar(x), UpChar(y)];
    assert Join([u], "_") == u;
    UpperTokenPieces(t);
    TokensOfJoin("", false, [u], '_', [t]);
  }

  // ---------------------------------------------------------------------------
  // Symbols the converters never introduce
  // ---------------------------------------------------------------------------

  lemma CaseAvoids(x: string, z: char)
    requires !IsLetter(z) && z !in x
    ensures z !in UpperCase(x) && z !in Capital(x, false)
  {
    forall i | 0 <= i < |x| ensures UpperCase(x)[i] != z && Capital(x, false)[i] != z {
      assert x[i] in x;
    }
  }

  lemma JoinAvoids(parts: seq<string>, sep: string, z: char)
    requires z !in sep && forall i :: 0 <= i < |parts| ==> z !in parts[i]
    ensures z !in Join(parts, sep)
  {
    JoinChars(parts, sep);
  }

  lemma PrefixAvoids(s: string, preserve: bool, body: string, z: char)
    requires z != '_' && z !in body
    ensures z !in WithPrefix(s, preserve, body)
  {
  }

  lemma BodyAvoids(s: string, preserve: bool, parts: seq<string>, sep: string, z: char)
    requires z != '_' && z !in sep && forall i :: 0 <= i < |parts| ==> z !in parts[i]
    ensures z !in WithPrefix(s, preserve, Join(parts, sep))
  {
    JoinAvoids(parts, sep, z);
  }

  lemma TokenListsAvoid(s: string, z: char)
    requires !IsLetter(z) && z != '_' && z !in s
    ensures var a := SplitCaseString(s);
      forall i :: 0 <= i < |a| ==> z !in a[i] && z !in MapUpper(a)[i] && z !in MapCapital(a)[i]
  {
    var a := SplitCaseString(s);
    TokensAvoid(s, z);
    forall i | 0 <= i < |a| ensures z !in a[i] && z !in MapUpper(a)[i] && z !in MapCapital(a)[i] {
      assert a[i] in a;
      CaseAvoids(a[i], z);
    }
  }

  /**
    A symbol that is no letter and no separator occurs in a converted string
    only if it occurs in the input: converters change letter case and
    separators, nothing else.
  */
  lemma ConvertAvoids(s: string, t: PlainCase, preserve: bool, z: char)
    requires !IsLetter(z) && z !in "_- " && z !in s
    ensures z !in Convert(s, t, preserve)
  {
    var a := SplitCaseString(s);
    TokenListsAvoid(s, z);
    match t {
      case Snake => BodyAvoids(s, preserve, a, "_", z);
      case UpperSnake => BodyAvoids(s, preserve, MapUpper(a), "_", z);
      case Pascal => BodyAvoids(s, preserve, MapCapital(a), "", z);
      case Camel => CamelAvoids(s, preserve, z);
      case Dash => BodyAvoids(s, preserve, a, "-", z);
      case UpperDash => UpperDashAvoids(s, preserve, z);
      case Train => BodyAvoids(s, preserve, MapCapital(a), "-", z);
      case Word => BodyAvoids(s, preserve, a, " ", z);
      case UpperWord => BodyAvoids(s, preserve, MapUpper(a), " ", z);
      case CapitalWord => BodyAvoids(s, preserve, MapCapital(a), " ", z);
      case Sentence => SentenceAvoids(s, preserve, z);
    }
  }

  lemma CamelAvoids(s: string, preserve: bool, z: char)
    requires !IsLetter(z) && z != '_' && z !in s
    ensures z !in CamelCase(s, preserve)
  {
    var a := SplitCaseString(s);
    TokenListsAvoid(s, z);
    if a == [] {
      BodyAvoids(s, preserve, [], "", z);
    } else {
      CamelPartsAvoid(a, z);
      BodyAvoids(s, preserve, [a[0]] + MapCapital(a[1..]), "", z);
    }
  }

  lemma CamelPartsAvoid(a: seq<string>, z: char)
    requires a != [] && forall i :: 0 <= i < |a| ==> z !in a[i] && z !in MapCapital(a)[i]
    ensures var parts := [a[0]] + MapCapital(a[1..]); forall i :: 0 <= i < |parts| ==> z !in parts[i]
  {
    var parts := [a[0]] + MapCapital(a[1..]);
    forall i | 1 <= i < |parts| ensures z !in parts[i] {
      assert parts[i] == MapCapital(a)[i];
    }
  }

  lemma UpperDashAvoids(s: string, preserve: bool, z: char)
    requires !IsLetter(z) && z != '_' && z != '-' && z !in s
    ensures z !in UpperDashCase(s, preserve)
  {
    var a := SplitCaseString(s);
    TokenListsAvoid(s, z);
    BodyAvoids(s, preserve, a, "-", z);
    CaseAvoids(WithPrefix(s, preserve, Join(a, "-")), z);
  }

  lemma SentenceAvoids(s: string, preserve: bool, z: char)
    requires !IsLetter(z) && z != '_' && z != ' ' && z !in s
    ensures z !in SentenceCase(s, preserve)
  {
    var a := SplitCaseString(s);
    TokenListsAvoid(s, z);
    JoinAvoids(a, " ", z);
    CaseAvoids(Join(a, " "), z);
    PrefixAvoids(s, preserve, Capital(Join(a, " "), false), z);
  }

  /** `UPPER_SNAKE_CASE_STRING` tokenizes to its four words, not to its letters. */
  lemma UpperSnakeExample(s: string)
    requires s == "UPPER_SNAKE_CASE_STRING"
    ensures SplitCaseString(s) == ["upper", "snake", "case", "string"]
  {
    var a := ["upper", "snake", "case", "string"];
    UpperWords(a);
    UpperSnakeText(s, MapUpper(a));
    UpperSnakeSplit(s, a);
  }

  lemma UpperSnakeText(s: string, parts: seq<string>)
    requires s == "UPPER_SNAKE_CASE_STRING" && parts == ["UPPER", "SNAKE", "CASE", "STRING"]
    ensures s == Join(parts, "_")
  {
    JoinFour(parts, "_");
  }

  lemma UpperSnakeSplit(s: string, a: seq<string>)
    requires Tokens(a) && s == Join(MapUpper(a), "_")
    ensures SplitCaseString(s) == a
  {
    UpperTokensJoin("", false, a, '_');
  }

  lemma UpperWords(a: seq<string>)
    requires a == ["upper", "snake", "case", "string"]
    ensures Tokens(a)
    ensures MapUpper(a) == ["UPPER", "SNAKE", "CASE", "STRING"]
  {
    var parts := ["UPPER", "SNAKE", "CASE", "STRING"];
    forall i | 0 <= i < 4 ensures UpperCase(a[i]) == parts[i] && ValidToken(a[i]) {
    }
  }

  lemma JoinFour(p: seq<string>, sep: string)
    requires |p| == 4
    ensures Join(p, sep) == p[0] + sep + p[1] + sep + p[2] + sep + p[3]
  {
    JoinThree(p[1..], sep);
  }

  lemma JoinThree(p: seq<string>, sep: string)
    requires |p| == 3
    ensures Join(p, sep) == p[0] + sep + p[1] + sep + p[2]
  {
    JoinTwo(p[1..], sep);
  }

  lemma JoinTwo(p: seq<string>, sep: string)
    requires |p| == 2
    ensures Join(p, sep) == p[0] + sep + p[1]
  {
    assert p[1..] == [p[1]];
  }
}
