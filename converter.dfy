/**
  The deterministic converters: each takes the tokens of `split_case_string`,
  joins them by a fixed rule, and puts the input's leading `_` run back in
  front when `preserve_prefixed_underscores` is set.  Also `capital` /
  `capitalize`; `upper_case`, `lower_case` and their `?` checks are the
  string primitives of module Text.
*/
module Converter {
  import opened Wrappers
  import opened Text
  import opened Prefix
  import opened Tokenizer
  import opened CaseRegistry

  // ---------------------------------------------------------------------------
  // capital
  // ---------------------------------------------------------------------------

  /**
    `capital` as the source writes it.  With `skip_prefixed_underscores`
    on a non-empty string made of `_` only, the cut string is empty, its
    first character is nil and Ruby raises NoMethodError: None here.
  */
  function CapitalAsWritten(s: string, skip: bool): (r: Option<string>)
    ensures r.None? <==> s != [] && skip && WithoutLeadingUnderscores(s) == []
  {
    if s == [] then Some(s)
    else
      var x := if skip then WithoutLeadingUnderscores(s) else s;
      if x == [] then None
      else
        var c := [UpChar(x[0])] + x[1..];
        Some(if skip then LeadingUnderscores(s) + c else c)
  }

  /**
    `capital` with the crash removed: a string with nothing after its `_`
    run comes back unchanged, as the empty string already does.
  */
  function Capital(s: string, skip: bool): (r: string)
    ensures |r| == |s|
    ensures var p := if skip then PrefixLength(s) else 0;
      (forall i :: 0 <= i < |s| && i != p ==> r[i] == s[i]) &&
      (p < |s| ==> r[p] == UpChar(s[p]))
  {
    if s == [] then s
    else
      var x := if skip then WithoutLeadingUnderscores(s) else s;
      if x == [] then s
      else
        var c := [UpChar(x[0])] + x[1..];
        if skip then LeadingUnderscores(s) + c else c
  }

  /** Wherever `capital` as written answers, the corrected `capital` answers the same. */
  lemma CapitalAgrees(s: string, skip: bool)
    requires CapitalAsWritten(s, skip).Some?
    ensures CapitalAsWritten(s, skip).value == Capital(s, skip)
  {
  }

  /**
    A non-empty run of `_` alone makes `capital` as written raise when the
    prefix is skipped; the corrected `capital` returns it unchanged.
  */
  lemma CapitalOfUnderscores(u: string)
    requires u != [] && forall i :: 0 <= i < |u| ==> u[i] == '_'
    ensures CapitalAsWritten(u, true).None?
    ensures Capital(u, true) == u
  {
    PrefixOfConcat(u, []);
    assert u + [] == u;
  }

  /** `capital` only upcases: it is idempotent and the empty string stays empty. */
  lemma CapitalIdempotent(s: string, skip: bool)
    ensures Capital(Capital(s, skip), skip) == Capital(s, skip)
    ensures Capital(s, skip) == [] <==> s == []
  {
    var r := Capital(s, skip);
    if skip {
      assert LeadingUnderscores(s) + WithoutLeadingUnderscores(s) == s;
      if WithoutLeadingUnderscores(s) != [] {
        PrefixOfConcat(LeadingUnderscores(s), [UpChar(WithoutLeadingUnderscores(s)[0])] + WithoutLeadingUnderscores(s)[1..]);
      }
    }
  }

  /** `a.map { |e| capital e }` */
  function MapCapital(parts: seq<string>): (r: seq<string>)
    ensures |r| == |parts|
  {
    seq(|parts|, i requires 0 <= i < |parts| => Capital(parts[i], false))
  }

  // ---------------------------------------------------------------------------
  // Re-attaching the prefix
  // ---------------------------------------------------------------------------

  /** `underscores_at_start(string) + converted` when asked, else `converted`. */
  function WithPrefix(s: string, preserve: bool, body: string): string
  {
    if preserve then LeadingUnderscores(s) + body else body
  }

  /** A body not starting with `_` is exactly what follows the re-attached prefix. */
  lemma Reattach(s: string, preserve: bool, body: string)
    requires body == [] || body[0] != '_'
    ensures LeadingUnderscores(WithPrefix(s, preserve, body)) == (if preserve then LeadingUnderscores(s) else [])
    ensures WithoutLeadingUnderscores(WithPrefix(s, preserve, body)) == body
  {
    if preserve {
      PrefixOfConcat(LeadingUnderscores(s), body);
    } else {
      PrefixOfConcat([], body);
      assert [] + body == body;
    }
  }

  // ---------------------------------------------------------------------------
  // Tokens and their transformed forms
  // ---------------------------------------------------------------------------

  /** Pieces a join can be split back into at c, none of which starts a `_` run. */
  predicate Separable(parts: seq<string>, c: char)
  {
    forall i :: 0 <= i < |parts| ==> parts[i] != [] && c !in parts[i] && '_' !in parts[i]
  }

  /** A list of tokens as the tokenizer produces them. */
  predicate Tokens(a: seq<string>)
  {
    forall i :: 0 <= i < |a| ==> ValidToken(a[i])
  }

  lemma TokensOfSplit(s: string)
    ensures Tokens(SplitCaseString(s))
  {
    var a := SplitCaseString(s);
    forall i | 0 <= i < |a| ensures ValidToken(a[i]) {
      assert a[i] in a;
    }
  }

  /** A token has no upper-case letter, so lower-casing changes nothing. */
  lemma TokenLower(t: string)
    requires ValidToken(t)
    ensures LowerCase(t) == t
  {
    forall i | 0 <= i < |t| ensures LowerCase(t)[i] == t[i] {
      assert t[i] in t;
    }
  }

  /** An upcased token is still a token-like piece, and downcasing it gives the token back. */
  lemma TokenUpper(t: string)
    requires ValidToken(t)
    ensures var u := UpperCase(t);
      u != [] && '_' !in u && '-' !in u && ' ' !in u && LowerCase(u) == t
  {
    var u := UpperCase(t);
    forall i | 0 <= i < |t| ensures u[i] != '_' && u[i] != '-' && u[i] != ' ' && LowerCase(u)[i] == t[i] {
      assert t[i] in t;
    }
  }

  /** A capitalized token is still a token-like piece, and downcasing it gives the token back. */
  lemma TokenCapital(t: string)
    requires ValidToken(t)
    ensures var c := Capital(t, false);
      c != [] && c[0] == UpChar(t[0]) && '_' !in c && '-' !in c && ' ' !in c && LowerCase(c) == t
  {
    var c := Capital(t, false);
    forall i | 0 <= i < |t| ensures c[i] != '_' && c[i] != '-' && c[i] != ' ' && LowerCase(c)[i] == t[i] {
      assert t[i] in t;
    }
  }

  lemma TokensSeparable(a: seq<string>, c: char)
    requires Tokens(a) && c in "_- "
    ensures Separable(a, c)
  {
  }

  lemma UpperSeparable(a: seq<string>, c: char)
    requires Tokens(a) && c in "_- "
    ensures Separable(MapUpper(a), c) && MapLower(MapUpper(a)) == a
  {
    forall i | 0 <= i < |a| ensures MapUpper(a)[i] != [] && c !in MapUpper(a)[i] && '_' !in MapUpper(a)[i] && MapLower(MapUpper(a))[i] == a[i] {
      TokenUpper(a[i]);
    }
  }

  lemma CapitalSeparable(a: seq<string>, c: char)
    requires Tokens(a) && c in "_- "
    ensures Separable(MapCapital(a), c) && MapLower(MapCapital(a)) == a
  {
    forall i | 0 <= i < |a| ensures MapCapital(a)[i] != [] && c !in MapCapital(a)[i] && '_' !in MapCapital(a)[i] && MapLower(MapCapital(a))[i] == a[i] {
      TokenCapital(a[i]);
    }
  }

  /**
    A join of separable pieces with the prefix re-attached splits back into
    the prefix asked for and the pieces.
  */
  lemma Assembled(s: string, preserve: bool, parts: seq<string>, c: char)
    requires Separable(parts, c)
    ensures var r := WithPrefix(s, preserve, Join(parts, [c]));
      LeadingUnderscores(r) == (if preserve then LeadingUnderscores(s) else []) &&
      RubySplit(WithoutLeadingUnderscores(r), [c]) == parts
    ensures var body := WithoutLeadingUnderscores(WithPrefix(s, preserve, Join(parts, [c])));
      body == [] || body[|body| - 1] != c
  {
    if parts != [] {
      JoinHead(parts, [c]);
      assert parts[0][0] in parts[0];
      var w := parts[|parts| - 1];
      JoinLast(parts, [c]);
      assert w[|w| - 1] in w;
    }
    Reattach(s, preserve, Join(parts, [c]));
    RubySplitJoin(parts, [c]);
  }

  /**
    The same for upcased tokens; upcasing the whole join, prefix included,
    gives the join of the upcased tokens, since `_` and the separators have
    no case.
  */
  lemma UpperAssembled(s: string, preserve: bool, a: seq<string>, c: char)
    requires Tokens(a) && c in "_- "
    ensures var r := WithPrefix(s, preserve, Join(MapUpper(a), [c]));
      LeadingUnderscores(r) == (if preserve then LeadingUnderscores(s) else []) &&
      RubySplit(WithoutLeadingUnderscores(r), [c]) == MapUpper(a) &&
      IsUpperCase(r) &&
      UpperCase(WithPrefix(s, preserve, Join(a, [c]))) == r
  {
    var r := WithPrefix(s, preserve, Join(MapUpper(a), [c]));
    assert LeadingUnderscores(r) == (if preserve then LeadingUnderscores(s) else []) &&
      RubySplit(WithoutLeadingUnderscores(r), [c]) == MapUpper(a) by {
      UpperSeparable(a, c);
      Assembled(s, preserve, MapUpper(a), c);
    }
    UpperCaseJoin(a, [c]);
    var u := if preserve then LeadingUnderscores(s) else [];
    UpperCaseConcat(u, Join(a, [c]));
    assert UpperCase(u) == u;
    assert WithPrefix(s, preserve, Join(a, [c])) == u + Join(a, [c]);
    assert WithPrefix(s, preserve, Join(MapUpper(a), [c])) == u + Join(MapUpper(a), [c]);
  }

  // ---------------------------------------------------------------------------
  // The converters
  // ---------------------------------------------------------------------------

  /** `snake_case`: the tokens joined by `_`. */
  function SnakeCase(s: string, preserve: bool): (r: string)
    ensures LeadingUnderscores(r) == (if preserve then LeadingUnderscores(s) else [])
    ensures RubySplit(WithoutLeadingUnderscores(r), "_") == SplitCaseString(s)
    ensures var body := WithoutLeadingUnderscores(r); body == [] || body[|body| - 1] != '_'
  {
    var a := SplitCaseString(s);
    TokensOfSplit(s);
    Assembled(s, preserve, a, '_');
    WithPrefix(s, preserve, Join(a, "_"))
  }

  /** `upper_snake_case`: the upcased tokens joined by `_`. */
  function UpperSnakeCase(s: string, preserve: bool): (r: string)
    ensures LeadingUnderscores(r) == (if preserve then LeadingUnderscores(s) else [])
    ensures RubySplit(WithoutLeadingUnderscores(r), "_") == MapUpper(SplitCaseString(s))
    ensures IsUpperCase(r)
    ensures var body := WithoutLeadingUnderscores(r); body == [] || body[|body| - 1] != '_'
  {
    var a := SplitCaseString(s);
    TokensOfSplit(s);
    UpperAssembled(s, preserve, a, '_');
    UpperSeparable(a, '_');
    Assembled(s, preserve, MapUpper(a), '_');
    WithPrefix(s, preserve, Join(MapUpper(a), "_"))
  }

  /** `pascal_case`: the capitalized tokens concatenated. */
  function PascalCase(s: string, preserve: bool): (r: string)
    ensures LeadingUnderscores(r) == (if preserve then LeadingUnderscores(s) else [])
    ensures LowerCase(WithoutLeadingUnderscores(r)) == Join(SplitCaseString(s), "")
    ensures var body := WithoutLeadingUnderscores(r);
      SplitCaseString(s) != [] ==> |body| > 0 && !IsLower(body[0])
    ensures var a := SplitCaseString(s); var j := Join(a, ""); var body := WithoutLeadingUnderscores(r);
      |body| == |j| && forall k :: 0 <= k < |j| ==> body[k] == (if WordStart(a, k) then UpChar(j[k]) else j[k])
  {
    var a := SplitCaseString(s);
    TokensOfSplit(s);
    PascalBody(a);
    CapitalizedJoin(a);
    Reattach(s, preserve, Join(MapCapital(a), ""));
    WithPrefix(s, preserve, Join(MapCapital(a), ""))
  }

  /** Offset k of the concatenated tokens is where one of them begins. */
  predicate WordStart(a: seq<string>, k: int)
    decreases |a|
  {
    a != [] && (k == 0 || (k >= |a[0]| && WordStart(a[1..], k - |a[0]|)))
  }

  /**
    Concatenating the capitalized tokens upcases the character at each
    token's start and keeps every other character.
  */
  lemma {:induction false} CapitalizedJoin(a: seq<string>)
    requires Tokens(a)
    ensures var c := Join(MapCapital(a), ""); var j := Join(a, "");
      |c| == |j| && forall k :: 0 <= k < |j| ==> c[k] == (if WordStart(a, k) then UpChar(j[k]) else j[k])
    decreases |a|
  {
    if a != [] {
      var rest := a[1..];
      assert Tokens(rest) by {
        forall i | 0 <= i < |rest| ensures ValidToken(rest[i]) {
          assert rest[i] == a[i + 1];
        }
      }
      CapitalizedJoin(rest);
      assert ValidToken(a[0]);
      assert MapCapital(a)[1..] == MapCapital(rest);
      JoinUnseparated(a);
      JoinUnseparated(MapCapital(a));
      var h := Capital(a[0], false);
      var c := Join(MapCapital(a), "");
      var j := Join(a, "");
      assert c == h + Join(MapCapital(rest), "");
      assert j == a[0] + Join(rest, "");
      forall k | 0 <= k < |j| ensures c[k] == (if WordStart(a, k) then UpChar(j[k]) else j[k]) {
        if k >= |a[0]| {
          assert WordStart(a, k) == WordStart(rest, k - |a[0]|);
        }
      }
    }
  }

  lemma PascalBody(a: seq<string>)
    requires Tokens(a)
    ensures var j := Join(MapCapital(a), "");
      LowerCase(j) == Join(a, "") && (a != [] ==> |j| > 0 && !IsLower(j[0]) && j[0] != '_')
  {
    CapitalSeparable(a, '_');
    LowerCaseJoin(MapCapital(a), "");
    if a != [] {
      JoinHead(MapCapital(a), "");
      TokenCapital(a[0]);
    }
  }

  /**
    `camel_case` as the source writes it: `a[1..-1]` is nil for an empty
    token list, and mapping over it raises NoMethodError.
  */
  function CamelCaseAsWritten(s: string, preserve: bool): (r: Option<string>)
    ensures r.None? <==> SplitCaseString(s) == []
  {
    var a := SplitCaseString(s);
    if a == [] then None
    else Some(WithPrefix(s, preserve, Join([a[0]] + MapCapital(a[1..]), "")))
  }

  /**
    The empty string has no token, so `camel_case` as written raises on it;
    the corrected `camel_case` returns the empty string.
  */
  lemma CamelOfEmpty(preserve: bool)
    ensures CamelCaseAsWritten("", preserve).None?
    ensures CamelCase("", preserve) == ""
  {
    PiecesEmpty();
    assert SplitCaseString("") == [];
  }

  /**
    `camel_case` with the crash removed: no tokens give an empty body, as
    every other converter does.  The first token stays as it is, the others
    are capitalized, and all are concatenated.
  */
  function CamelCase(s: string, preserve: bool): (r: string)
    ensures LeadingUnderscores(r) == (if preserve then LeadingUnderscores(s) else [])
    ensures LowerCase(WithoutLeadingUnderscores(r)) == Join(SplitCaseString(s), "")
    ensures var a := SplitCaseString(s); var body := WithoutLeadingUnderscores(r);
      a != [] ==> |a[0]| <= |body| && body[..|a[0]|] == a[0]
    ensures var a := SplitCaseString(s); var j := Join(a, ""); var body := WithoutLeadingUnderscores(r);
      |body| == |j| && forall k :: 0 <= k < |j| ==> body[k] == (if k != 0 && WordStart(a, k) then UpChar(j[k]) else j[k])
  {
    var a := SplitCaseString(s);
    TokensOfSplit(s);
    if a == [] then
      Reattach(s, preserve, "");
      WithPrefix(s, preserve, "")
    else
      var parts := [a[0]] + MapCapital(a[1..]);
      CamelParts(a);
      CamelJoin(a);
      Reattach(s, preserve, Join(parts, ""));
      WithPrefix(s, preserve, Join(parts, ""))
  }

  lemma CamelParts(a: seq<string>)
    requires Tokens(a) && a != []
    ensures var j := Join([a[0]] + MapCapital(a[1..]), "");
      LowerCase(j) == Join(a, "") && |a[0]| <= |j| && j[..|a[0]|] == a[0] && j[0] != '_'
  {
    var parts := [a[0]] + MapCapital(a[1..]);
    CapitalSeparable(a[1..], '_');
    TokenLower(a[0]);
    LowerCaseJoin(parts, "");
    assert MapLower(parts) == [LowerCase(a[0])] + MapLower(MapCapital(a[1..]));
    assert a == [a[0]] + a[1..];
    var j := Join(parts, "");
    if |parts| > 1 {
      assert j == a[0] + "" + Join(parts[1..], "");
    }
    assert j[..|a[0]|] == a[0];
    assert a[0][0] in a[0];
  }

  /**
    The camel concatenation keeps the first token as it is and upcases the
    character at the start of every later token.
  */
  lemma CamelJoin(a: seq<string>)
    requires Tokens(a) && a != []
    ensures var c := Join([a[0]] + MapCapital(a[1..]), ""); var j := Join(a, "");
      |c| == |j| && forall k :: 0 <= k < |j| ==> c[k] == (if k != 0 && WordStart(a, k) then UpChar(j[k]) else j[k])
  {
    var rest := a[1..];
    assert Tokens(rest) by {
      forall i | 0 <= i < |rest| ensures ValidToken(rest[i]) {
        assert rest[i] == a[i + 1];
      }
    }
    CapitalizedJoin(rest);
    var parts := [a[0]] + MapCapital(rest);
    assert parts[1..] == MapCapital(rest);
    JoinUnseparated(parts);
    JoinUnseparated(a);
    var c := Join(parts, "");
    var j := Join(a, "");
    assert c == a[0] + Join(MapCapital(rest), "");
    assert j == a[0] + Join(rest, "");
    forall k | 0 <= k < |j| ensures c[k] == (if k != 0 && WordStart(a, k) then UpChar(j[k]) else j[k]) {
      if k >= |a[0]| {
        assert ValidToken(a[0]);
        assert WordStart(a, k) == WordStart(rest, k - |a[0]|);
      }
    }
  }

  /** `dash_case`: the tokens joined by `-`. */
  function DashCase(s: string, preserve: bool): (r: string)
    ensures LeadingUnderscores(r) == (if preserve then LeadingUnderscores(s) else [])
    ensures RubySplit(WithoutLeadingUnderscores(r), "-") == SplitCaseString(s)
    ensures var body := WithoutLeadingUnderscores(r); body == [] || body[|body| - 1] != '-'
  {
    var a := SplitCaseString(s);
    TokensOfSplit(s);
    Assembled(s, preserve, a, '-');
    WithPrefix(s, preserve, Join(a, "-"))
  }

  /** `upper_dash_case`: the whole `dash_case` result upcased, prefix included. */
  function UpperDashCase(s: string, preserve: bool): (r: string)
    ensures LeadingUnderscores(r) == (if preserve then LeadingUnderscores(s) else [])
    ensures RubySplit(WithoutLeadingUnderscores(r), "-") == MapUpper(SplitCaseString(s))
    ensures IsUpperCase(r)
    ensures var body := WithoutLeadingUnderscores(r); body == [] || body[|body| - 1] != '-'
  {
    var a := SplitCaseString(s);
    TokensOfSplit(s);
    UpperAssembled(s, preserve, a, '-');
    UpperSeparable(a, '-');
    Assembled(s, preserve, MapUpper(a), '-');
    UpperCase(WithPrefix(s, preserve, Join(a, "-")))
  }

  /** `train_case`: the capitalized tokens joined by `-`. */
  function TrainCase(s: string, preserve: bool): (r: string)
    ensures LeadingUnderscores(r) == (if preserve then LeadingUnderscores(s) else [])
    ensures RubySplit(WithoutLeadingUnderscores(r), "-") == MapCapital(SplitCaseString(s))
    ensures var body := WithoutLeadingUnderscores(r); body == [] || body[|body| - 1] != '-'
  {
    var a := SplitCaseString(s);
    TokensOfSplit(s);
    CapitalSeparable(a, '-');
    Assembled(s, preserve, MapCapital(a), '-');
    WithPrefix(s, preserve, Join(MapCapital(a), "-"))
  }

  /** `word_case`: the tokens joined by a space. */
  function WordCase(s: string, preserve: bool): (r: string)
    ensures LeadingUnderscores(r) == (if preserve then LeadingUnderscores(s) else [])
    ensures RubySplit(WithoutLeadingUnderscores(r), " ") == SplitCaseString(s)
    ensures var body := WithoutLeadingUnderscores(r); body == [] || body[|body| - 1] != ' '
  {
    var a := SplitCaseString(s);
    TokensOfSplit(s);
    Assembled(s, preserve, a, ' ');
    WithPrefix(s, preserve, Join(a, " "))
  }

  /** `upper_word_case`: the upcased tokens joined by a space. */
  function UpperWordCase(s: string, preserve: bool): (r: string)
    ensures LeadingUnderscores(r) == (if preserve then LeadingUnderscores(s) else [])
    ensures RubySplit(WithoutLeadingUnderscores(r), " ") == MapUpper(SplitCaseString(s))
    ensures IsUpperCase(r)
    ensures var body := WithoutLeadingUnderscores(r); body == [] || body[|body| - 1] != ' '
  {
    var a := SplitCaseString(s);
    TokensOfSplit(s);
    UpperAssembled(s, preserve, a, ' ');
    UpperSeparable(a, ' ');
    Assembled(s, preserve, MapUpper(a), ' ');
    WithPrefix(s, preserve, Join(MapUpper(a), " "))
  }

  /** `capital_word_case`: the capitalized tokens joined by a space. */
  function CapitalWordCase(s: string, preserve: bool): (r: string)
    ensures LeadingUnderscores(r) == (if preserve then LeadingUnderscores(s) else [])
    ensures RubySplit(WithoutLeadingUnderscores(r), " ") == MapCapital(SplitCaseString(s))
    ensures var body := WithoutLeadingUnderscores(r); body == [] || body[|body| - 1] != ' '
  {
    var a := SplitCaseString(s);
    TokensOfSplit(s);
    CapitalSeparable(a, ' ');
    Assembled(s, preserve, MapCapital(a), ' ');
    WithPrefix(s, preserve, Join(MapCapital(a), " "))
  }

  /** `sentence_case`: the tokens joined by a space, then the first character capitalized. */
  function SentenceCase(s: string, preserve: bool): (r: string)
    ensures LeadingUnderscores(r) == (if preserve then LeadingUnderscores(s) else [])
    ensures RubySplit(LowerCase(WithoutLeadingUnderscores(r)), " ") == SplitCaseString(s)
    ensures var body := WithoutLeadingUnderscores(r); body == [] || !IsLower(body[0])
    ensures var body := WithoutLeadingUnderscores(r); forall i :: 1 <= i < |body| ==> !IsUpper(body[i])
    ensures var body := WithoutLeadingUnderscores(r); body == [] || body[|body| - 1] != ' '
  {
    var a := SplitCaseString(s);
    TokensOfSplit(s);
    var j := Join(a, " ");
    Assembled(s, preserve, a, ' ');
    SentenceBody(a);
    Reattach(s, preserve, Capital(j, false));
    WithPrefix(s, preserve, Capital(j, false))
  }

  lemma SentenceBody(a: seq<string>)
    requires Tokens(a)
    ensures var j := Join(a, " "); var c := Capital(j, false);
      LowerCase(c) == j && (c == [] || (c[0] != '_' && !IsLower(c[0]))) &&
      (forall i :: 1 <= i < |c| ==> !IsUpper(c[i])) && (c == [] || c[|c| - 1] != ' ')
  {
    var j := Join(a, " ");
    var c := Capital(j, false);
    LowerCaseJoin(a, " ");
    assert MapLower(a) == a by {
      forall i | 0 <= i < |a| ensures MapLower(a)[i] == a[i] {
        TokenLower(a[i]);
      }
    }
    assert LowerCase(j) == j;
    forall i | 0 <= i < |j| ensures LowerCase(c)[i] == j[i] {
      assert LowerCase(j)[i] == j[i];
    }
    forall i | 1 <= i < |c| ensures !IsUpper(c[i]) {
      assert c[i] == j[i] == LowerCase(j)[i];
    }
    if a != [] {
      JoinHead(a, " ");
      assert a[0][0] in a[0];
      var w := a[|a| - 1];
      JoinLast(a, " ");
      assert w[|w| - 1] in w;
    }
  }

  // ---------------------------------------------------------------------------
  // Dispatch by style
  // ---------------------------------------------------------------------------

  /** The styles with a deterministic converter: all but the mixed style. */
  type PlainCase = t: CaseType | t != Mixed witness Snake

  /** `self.send type, string, preserve_prefixed_underscores: preserve` for a deterministic style. */
  function Convert(s: string, t: PlainCase, preserve: bool): (r: string)
    ensures LeadingUnderscores(r) == (if preserve then LeadingUnderscores(s) else [])
  {
    match t
    case Snake => SnakeCase(s, preserve)
    case UpperSnake => UpperSnakeCase(s, preserve)
    case Pascal => PascalCase(s, preserve)
    case Camel => CamelCase(s, preserve)
    case Dash => DashCase(s, preserve)
    case UpperDash => UpperDashCase(s, preserve)
    case Train => TrainCase(s, preserve)
    case Word => WordCase(s, preserve)
    case UpperWord => UpperWordCase(s, preserve)
    case CapitalWord => CapitalWordCase(s, preserve)
    case Sentence => SentenceCase(s, preserve)
  }
}
