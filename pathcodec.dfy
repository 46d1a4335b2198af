/**
  The name-building halves of `constantize` and `deconstantize`.  A `/`- or
  `::`-delimited string becomes an `A::B` constant name: its segments are
  pascal-cased without prefix, empty ones dropped.  A constant name becomes
  a `/` path or a `::` string again, each segment converted to a style.
  Looking the constant up, and reading a constant's name, are outside the
  model: `constantize` yields the name it would look up, and
  `deconstantize` takes the name.
*/
module PathCodec {
  import opened Wrappers
  import opened Text
  import opened Prefix
  import opened Tokenizer
  import opened CaseRegistry
  import opened Converter
  import opened Stability
  import opened Mixed
  import opened Dispatch

  // ---------------------------------------------------------------------------
  // Segments of a qualified name
  // ---------------------------------------------------------------------------

  /** `s.include?('::') ? s.split('::') : [s]` */
  function Segments(s: string): seq<string>
  {
    if Contains(s, "::") then RubySplit(s, "::") else [s]
  }

  /** Every character of a segment occurs in the name. */
  lemma SegmentChars(s: string)
    ensures forall p, x :: p in Segments(s) && x in p ==> x in s
  {
    SplitOnChars(s, "::");
  }

  lemma NoColons(s: string)
    requires ':' !in s
    ensures !Contains(s, "::")
  {
    forall i | 0 <= i <= |s| ensures !("::" <= s[i..]) {
      if i < |s| {
        assert s[i] in s;
      }
    }
  }

  /** A name joined from non-empty, colon-free segments splits back into them. */
  lemma SegmentsOfJoin(parts: seq<string>)
    requires |parts| >= 1
    requires forall i :: 0 <= i < |parts| ==> parts[i] != [] && ':' !in parts[i]
    ensures Segments(Join(parts, "::")) == parts
  {
    if |parts| >= 2 {
      JoinContains(parts, "::");
      RubySplitJoin(parts, "::");
    } else {
      NoColons(parts[0]);
    }
  }

  /**
    Replacing `/` by `::` and splitting at `::` is splitting at `/`, for a
    string without colons.
  */
  lemma SlashSegments(s: string)
    requires ':' !in s
    ensures Segments(Gsub(s, '/', "::")) == (if '/' in s then RubySplit(s, "/") else [s])
  {
    var ps := SplitOn(s, "/");
    JoinSplitOn(s, "/");
    SplitOnPieces(s, '/');
    assert forall i :: 0 <= i < |ps| ==> '/' !in ps[i] && ':' !in ps[i] by {
      forall i | 0 <= i < |ps| ensures '/' !in ps[i] && ':' !in ps[i] {
        assert ps[i] in ps;
      }
    }
    GsubJoin(ps, '/', "::");
    if |ps| >= 2 {
      JoinContains(ps, "::");
      SplitOnJoin(ps, "::");
    } else {
      NoColons(s);
    }
  }

  // ---------------------------------------------------------------------------
  // constantize
  // ---------------------------------------------------------------------------

  /** `map { |e| pascal_case(e, preserve_prefixed_underscores: false) }` */
  function PascalSegments(cs: seq<string>): (r: seq<string>)
    ensures |r| == |cs|
  {
    seq(|cs|, i requires 0 <= i < |cs| => PascalCase(cs[i], false))
  }

  /** A part of a constant name: non-empty, capitalized, free of separators and of `/`. */
  predicate ConstantSegment(x: string)
  {
    x != [] && !IsLower(x[0]) && '_' !in x && '-' !in x && ' ' !in x && '/' !in x
  }

  /**
    A segment pascal-cased without prefix is empty exactly when the segment
    has no token; otherwise it starts with no lower-case letter.  It holds
    no separator.
  */
  lemma PascalSegment(e: string)
    ensures var r := PascalCase(e, false);
      (r == [] <==> SplitCaseString(e) == []) && (r != [] ==> !IsLower(r[0])) &&
      '_' !in r && '-' !in r && ' ' !in r
  {
    var r := PascalCase(e, false);
    var a := SplitCaseString(e);
    assert WithoutLeadingUnderscores(r) == r;
    TokensOfSplit(e);
    NoSeparatorsInDowncase(r, a);
  }

  /** A string whose downcase is a concatenation of tokens holds no separator. */
  lemma NoSeparatorsInDowncase(r: string, a: seq<string>)
    requires Tokens(a) && LowerCase(r) == Join(a, "")
    ensures '_' !in r && '-' !in r && ' ' !in r
  {
    JoinChars(a, "");
    forall i | 0 <= i < |r| ensures r[i] != '_' && r[i] != '-' && r[i] != ' ' {
      var x := LowerCase(r)[i];
      assert x in Join(a, "");
      var k :| 0 <= k < |a| && x in a[k];
      assert ValidToken(a[k]);
    }
  }

  /** A segment without `/` and without z pascal-cases to nothing or to a part free of z. */
  lemma PascalSegmentFree(e: string, z: char)
    requires '/' !in e && z !in e && !IsLetter(z) && z !in "_- "
    ensures var r := PascalCase(e, false); r == [] || (ConstantSegment(r) && z !in r)
  {
    PascalSegment(e);
    ConvertAvoids(e, Pascal, false, '/');
    ConvertAvoids(e, Pascal, false, z);
  }

  lemma PascalSegmentsFree(cs: seq<string>, z: char)
    requires forall p :: p in cs ==> '/' !in p && z !in p
    requires !IsLetter(z) && z !in "_- "
    ensures forall i :: 0 <= i < |cs| ==>
      PascalSegments(cs)[i] == [] || (ConstantSegment(PascalSegments(cs)[i]) && z !in PascalSegments(cs)[i])
  {
    forall i | 0 <= i < |cs|
      ensures PascalSegments(cs)[i] == [] || (ConstantSegment(PascalSegments(cs)[i]) && z !in PascalSegments(cs)[i])
    {
      assert cs[i] in cs;
      PascalSegmentFree(cs[i], z);
    }
  }

  /** Dropping the empty strings from strings that are empty or parts leaves parts. */
  lemma RejectEmptyParts(ps: seq<string>, z: char)
    requires forall i :: 0 <= i < |ps| ==> ps[i] == [] || (ConstantSegment(ps[i]) && z !in ps[i])
    ensures forall i :: 0 <= i < |RejectEmpty(ps)| ==> ConstantSegment(RejectEmpty(ps)[i]) && z !in RejectEmpty(ps)[i]
  {
    var r := RejectEmpty(ps);
    forall i | 0 <= i < |r| ensures ConstantSegment(r[i]) && z !in r[i] {
      assert r[i] in r;
    }
  }

  /** The segments of the constant name `constantize` builds. */
  function ConstantParts(s: string): (parts: seq<string>)
    ensures forall i :: 0 <= i < |parts| ==> ConstantSegment(parts[i])
  {
    var segments := Segments(Gsub(s, '/', "::"));
    SegmentChars(Gsub(s, '/', "::"));
    PascalSegmentsFree(segments, '/');
    RejectEmptyParts(PascalSegments(segments), '/');
    RejectEmpty(PascalSegments(segments))
  }

  /** `constantize` without the lookup: the parts joined by `::`; no `/` survives. */
  function ConstantName(s: string): (r: string)
    ensures '/' !in r
  {
    JoinAvoids(ConstantParts(s), "::", '/');
    Join(ConstantParts(s), "::")
  }

  /**
    For a string without colons, the constant's parts are its `/`-pieces,
    pascal-cased, with the empty ones dropped.
  */
  lemma ConstantOfPath(s: string)
    requires ':' !in s
    ensures ConstantParts(s) == RejectEmpty(PascalSegments(RubySplit(s, "/")))
  {
    SlashSegments(s);
    if '/' !in s {
      if s == [] {
        PiecesEmpty();
        assert SplitCaseString(s) == [];
        assert RubySplit(s, "/") == [];
      } else {
        SplitOnNoSep(s, "/");
      }
    }
  }

  lemma PathSegmentsFree(s: string)
    requires ':' !in s
    ensures forall p :: p in Segments(Gsub(s, '/', "::")) ==> '/' !in p && ':' !in p
  {
    SlashSegments(s);
    SplitOnPieces(s, '/');
    forall p | p in Segments(Gsub(s, '/', "::")) ensures '/' !in p && ':' !in p {
      if '/' in s {
        assert p in SplitOn(s, "/");
      }
    }
  }

  /** The constant name of a string without colons splits at `::` into its parts again. */
  lemma ConstantNameSplits(s: string)
    requires ':' !in s
    ensures RubySplit(ConstantName(s), "::") == ConstantParts(s)
  {
    var segments := Segments(Gsub(s, '/', "::"));
    PathSegmentsFree(s);
    PascalSegmentsFree(segments, ':');
    RejectEmptyParts(PascalSegments(segments), ':');
    RubySplitJoin(ConstantParts(s), "::");
  }

  // ---------------------------------------------------------------------------
  // deconstantize
  // ---------------------------------------------------------------------------

  /** The `target:` of `deconstantize`: `:path` or `:string`. */
  datatype Target = PathTarget | StringTarget

  /** The style used when none is given: snake case for a path, Pascal case for a string. */
  function DefaultCase(target: Target): (name: string)
    ensures ValidCaseType(name) && name != Name(Mixed)
    ensures target == PathTarget ==> Parse(name) == Some(Snake)
    ensures target == StringTarget ==> Parse(name) == Some(Pascal)
  {
    match target
    case PathTarget => Name(Snake)
    case StringTarget => Name(Pascal)
  }

  /** What joins the converted segments. */
  function Separator(target: Target): string
  {
    match target
    case PathTarget => "/"
    case StringTarget => "::"
  }

  /** The draws a `mixed_case` conversion of the i-th segment consumes. */
  function DrawsAt(draws: seq<seq<Draw>>, i: nat): seq<Draw>
  {
    if i < |draws| then draws[i] else []
  }

  predicate SegmentDrawsFit(segs: seq<string>, draws: seq<seq<Draw>>)
  {
    forall i :: 0 <= i < |segs| ==> DrawsFit(DrawsAt(draws, i), |SplitCaseString(segs[i])|)
  }

  /**
    `map` over conversions that may raise: the values of all results, or
    the error of the first one that failed.
  */
  function Collect(rs: seq<Result<string, CaseError>>): (r: Result<seq<string>, CaseError>)
    ensures r.Success? <==> forall i :: 0 <= i < |rs| ==> rs[i].Success?
    ensures r.Success? ==> |r.value| == |rs| && forall i :: 0 <= i < |rs| ==> r.value[i] == rs[i].value
    ensures r.Failure? ==>
      exists k :: 0 <= k < |rs| && rs[k] == Failure(r.error) && forall i :: 0 <= i < k ==> rs[i].Success?
  {
    if rs == [] then Success([])
    else
      match rs[0]
      case Failure(e) => Failure(e)
      case Success(x) =>
        match Collect(rs[1..])
        case Failure(e) => Failure(e)
        case Success(xs) => Success([x] + xs)
  }

  /** `convert_case e, case_type` for every segment e, in order. */
  function SegmentResults(segs: seq<string>, name: string, draws: seq<seq<Draw>>): (rs: seq<Result<string, CaseError>>)
    requires name == Name(Mixed) ==> SegmentDrawsFit(segs, draws)
    ensures |rs| == |segs|
  {
    seq(|segs|, i requires 0 <= i < |segs| => ConvertCase(segs[i], name, true, DrawsAt(draws, i)))
  }

  /** A style other than the mixed one converts every segment. */
  lemma PlainResults(segs: seq<string>, name: string, t: PlainCase, draws: seq<seq<Draw>>)
    requires Parse(name) == Some(t)
    ensures name != Name(Mixed)
    ensures forall i :: 0 <= i < |segs| ==> SegmentResults(segs, name, draws)[i] == Success(Convert(segs[i], t, true))
  {
    ParseMixed(name);
  }

  /** An unknown style fails on every segment with the same message. */
  lemma InvalidResults(segs: seq<string>, name: string, draws: seq<seq<Draw>>)
    requires !ValidCaseType(name)
    ensures name != Name(Mixed)
    ensures forall i :: 0 <= i < |segs| ==>
      SegmentResults(segs, name, draws)[i] == Failure(InvalidCaseError(ErrorMessage(name)))
  {
    RegistryComplete(Mixed);
  }

  /**
    `deconstantize` on the name of a constant: the segments converted to the
    given style, or to the target's default, and joined by `/` or `::`.
  */
  function Deconstantize(name: string, target: Target, caseType: Option<string>, draws: seq<seq<Draw>>): (r: Result<string, CaseError>)
    requires caseType == Some(Name(Mixed)) ==> SegmentDrawsFit(Segments(name), draws)
    ensures caseType.None? ==> r.Success?
    ensures caseType.Some? && !ValidCaseType(caseType.value) && Segments(name) != [] ==>
      r == Failure(InvalidCaseError(ErrorMessage(caseType.value)))
    ensures r.Failure? && r.error.InvalidCaseError? ==> caseType.Some? && !ValidCaseType(caseType.value)
    ensures forall t: PlainCase :: caseType.Some? && Parse(caseType.value) == Some(t) ==>
      r == Success(Join(ConvertedSegments(Segments(name), t), Separator(target)))
    ensures caseType.None? ==>
      r == Success(Join(ConvertedSegments(Segments(name), if target == PathTarget then Snake else Pascal), Separator(target)))
  {
    var style := if caseType.Some? then caseType.value else DefaultCase(target);
    var segs := Segments(name);
    DeconstantizeCases(segs, caseType, style, target, draws);
    StyleCollects(segs, style, draws);
    match Collect(SegmentResults(segs, style, draws))
    case Failure(e) => Failure(e)
    case Success(parts) => Success(Join(parts, Separator(target)))
  }

  lemma DeconstantizeCases(segs: seq<string>, caseType: Option<string>, style: string, target: Target, draws: seq<seq<Draw>>)
    requires style == if caseType.Some? then caseType.value else DefaultCase(target)
    requires caseType == Some(Name(Mixed)) ==> SegmentDrawsFit(segs, draws)
    ensures style == Name(Mixed) ==> SegmentDrawsFit(segs, draws)
    ensures var c := Collect(SegmentResults(segs, style, draws));
      (caseType.None? ==> c.Success?) &&
      (!ValidCaseType(style) && segs != [] ==> c == Failure(InvalidCaseError(ErrorMessage(style)))) &&
      (c.Failure? && c.error.InvalidCaseError? ==> !ValidCaseType(style))
  {
    if caseType.None? {
      var t: PlainCase := if target == PathTarget then Snake else Pascal;
      PlainResults(segs, style, t, draws);
    } else if !ValidCaseType(style) {
      InvalidResults(segs, style, draws);
    }
    var rs := SegmentResults(segs, style, draws);
    var c := Collect(rs);
    if c.Failure? && c.error.InvalidCaseError? {
      var k :| 0 <= k < |rs| && rs[k] == Failure(c.error);
    }
  }

  /** Every segment in one plain style, with its prefix kept. */
  function ConvertedSegments(segs: seq<string>, t: PlainCase): (parts: seq<string>)
    ensures |parts| == |segs|
  {
    seq(|segs|, i requires 0 <= i < |segs| => Convert(segs[i], t, true))
  }

  lemma CollectPlain(segs: seq<string>, name: string, t: PlainCase, draws: seq<seq<Draw>>)
    requires Parse(name) == Some(t)
    ensures name != Name(Mixed)
    ensures Collect(SegmentResults(segs, name, draws)) == Success(ConvertedSegments(segs, t))
  {
    PlainResults(segs, name, t, draws);
    CollectSuccesses(SegmentResults(segs, name, draws), ConvertedSegments(segs, t));
  }

  /** In a plain style, the conversions collect to the converted segments. */
  lemma StyleCollects(segs: seq<string>, style: string, draws: seq<seq<Draw>>)
    requires style == Name(Mixed) ==> SegmentDrawsFit(segs, draws)
    ensures forall t: PlainCase :: Parse(style) == Some(t) ==>
      Collect(SegmentResults(segs, style, draws)) == Success(ConvertedSegments(segs, t))
  {
    forall t: PlainCase | Parse(style) == Some(t)
      ensures Collect(SegmentResults(segs, style, draws)) == Success(ConvertedSegments(segs, t))
    {
      CollectPlain(segs, style, t, draws);
    }
  }

  /** Results that all succeed collect to their values. */
  lemma CollectSuccesses(rs: seq<Result<string, CaseError>>, vs: seq<string>)
    requires |rs| == |vs| && forall i :: 0 <= i < |rs| ==> rs[i] == Success(vs[i])
    ensures Collect(rs) == Success(vs)
  {
    var c := Collect(rs);
    assert c.Success?;
    assert forall i :: 0 <= i < |vs| ==> c.value[i] == vs[i];
    assert c.value == vs;
  }

  /** Segments without `/` convert to pieces without `/`, so the path splits back into them. */
  lemma PathOfSegments(segs: seq<string>, t: PlainCase)
    requires |segs| >= 1 && forall p :: p in segs ==> '/' !in p
    ensures SplitOn(Join(ConvertedSegments(segs, t), "/"), "/") == ConvertedSegments(segs, t)
  {
    var parts := ConvertedSegments(segs, t);
    forall i | 0 <= i < |segs| ensures '/' !in parts[i] {
      assert segs[i] in segs;
      ConvertAvoids(segs[i], t, true, '/');
    }
    SplitOnJoin(parts, "/");
  }

  /**
    For a name without `/` and any style but the mixed one, the path has
    exactly one `/`-piece per segment: the segment in that style.
  */
  lemma PathPieces(name: string, caseType: Option<string>, t: PlainCase, draws: seq<seq<Draw>>)
    requires '/' !in name
    requires caseType.Some? ==> Parse(caseType.value) == Some(t)
    requires caseType.None? ==> t == Snake
    ensures caseType != Some(Name(Mixed))
    ensures var r := Deconstantize(name, PathTarget, caseType, draws); var segs := Segments(name);
      r.Success? && (segs != [] ==> SplitOn(r.value, "/") == ConvertedSegments(segs, t))
  {
    var style := if caseType.Some? then caseType.value else DefaultCase(PathTarget);
    var segs := Segments(name);
    CollectPlain(segs, style, t, draws);
    SegmentChars(name);
    if segs != [] {
      PathOfSegments(segs, t);
    }
  }

  /**
    For a `::` string built from non-empty, colon-free segments and any style
    but the mixed one, the result has exactly one `::`-piece per segment:
    the segment in that style.
  */
  lemma StringPieces(ids: seq<string>, caseType: Option<string>, t: PlainCase, draws: seq<seq<Draw>>)
    requires |ids| >= 1 && forall i :: 0 <= i < |ids| ==> ids[i] != [] && ':' !in ids[i]
    requires caseType.Some? ==> Parse(caseType.value) == Some(t)
    requires caseType.None? ==> t == Pascal
    ensures caseType != Some(Name(Mixed))
    ensures var r := Deconstantize(Join(ids, "::"), StringTarget, caseType, draws);
      r.Success? && SplitOn(r.value, "::") == ConvertedSegments(ids, t)
  {
    if caseType.Some? {
      ParseMixed(caseType.value);
    }
    SegmentsOfJoin(ids);
    var parts := ConvertedSegments(ids, t);
    forall i | 0 <= i < |ids| ensures ':' !in parts[i] {
      ConvertAvoids(ids[i], t, true, ':');
    }
    SplitOnJoin(parts, "::");
  }

  /**
    Words without `/` or `:` give the same constant whether they are joined
    by `/` or by `::`; when none is empty its parts are the words
    pascal-cased, with the empty results dropped.
  */
  lemma ConstantOfSegments(ws: seq<string>)
    requires |ws| >= 1 && forall i :: 0 <= i < |ws| ==> '/' !in ws[i] && ':' !in ws[i]
    ensures ConstantName(Join(ws, "/")) == ConstantName(Join(ws, "::"))
    ensures (forall i :: 0 <= i < |ws| ==> ws[i] != []) ==>
      ConstantParts(Join(ws, "::")) == RejectEmpty(PascalSegments(ws))
  {
    GsubJoin(ws, '/', "::");
    JoinAvoids(ws, "::", '/');
    GsubAbsent(Join(ws, "::"), '/', "::");
    if forall i :: 0 <= i < |ws| ==> ws[i] != [] {
      SegmentsOfJoin(ws);
    }
  }

  // ---------------------------------------------------------------------------
  // Examples
  // ---------------------------------------------------------------------------

  /** A single lower-case token pascal-cases to itself, capitalized. */
  lemma PascalOfWord(w: string)
    requires ValidToken(w)
    ensures PascalCase(w, false) == Capital(w, false)
  {
    TokensOfWords([w], '_');
    assert Join([w], "_") == w;
    assert MapCapital([w]) == [Capital(w, false)];
  }

  /**
    A leading `/` and two lower-case words give the two words capitalized,
    joined by `::`.
  */
  lemma ConstantOfSlashWords(w1: string, w2: string)
    requires ValidToken(w1) && ValidToken(w2)
    requires '/' !in w1 && '/' !in w2 && ':' !in w1 && ':' !in w2
    ensures ConstantName("/" + w1 + "/" + w2) == Capital(w1, false) + "::" + Capital(w2, false)
  {
    var s := "/" + w1 + "/" + w2;
    var ws := ["", w1, w2];
    var cs := ["", Capital(w1, false), Capital(w2, false)];
    SlashWordsSplit(w1, w2);
    SlashWordsPascal(w1, w2);
    CapitalsKept(w1, w2);
    ConstantOfWords(s, ws, cs, cs[1..]);
    JoinTwo(cs[1..], "::");
  }

  lemma SlashWordsSplit(w1: string, w2: string)
    requires w2 != [] && '/' !in w1 && '/' !in w2
    ensures RubySplit("/" + w1 + "/" + w2, "/") == ["", w1, w2]
  {
    JoinThree(["", w1, w2], "/");
    RubySplitOfJoin(["", w1, w2], "/");
  }

  lemma SlashWordsPascal(w1: string, w2: string)
    requires ValidToken(w1) && ValidToken(w2)
    ensures PascalSegments(["", w1, w2]) == ["", Capital(w1, false), Capital(w2, false)]
  {
    var ws := ["", w1, w2];
    var cs := ["", Capital(w1, false), Capital(w2, false)];
    forall i | 0 <= i < 3 ensures PascalCase(ws[i], false) == cs[i] {
      if i == 0 {
        PascalOfEmpty();
      } else {
        PascalOfWord(ws[i]);
      }
    }
    PascalSegmentsOf(ws, cs);
  }

  lemma CapitalsKept(w1: string, w2: string)
    requires ValidToken(w1) && ValidToken(w2)
    ensures RejectEmpty(["", Capital(w1, false), Capital(w2, false)]) == [Capital(w1, false), Capital(w2, false)]
  {
    TokenCapital(w1);
    TokenCapital(w2);
    var cs := ["", Capital(w1, false), Capital(w2, false)];
    DropEmptyHead(cs, cs[1..]);
  }

  /** `/test/man` names the constant `Test::Man`. */
  lemma ConstantPathExample(s: string)
    requires s == "/test/man"
    ensures ConstantName(s) == "Test::Man"
  {
    var w1, w2 := "test", "man";
    assert s == "/" + w1 + "/" + w2;
    ConstantOfSlashWords(w1, w2);
    TestMan(w1, w2);
  }

  lemma TestMan(w1: string, w2: string)
    requires w1 == "test" && w2 == "man"
    ensures Capital(w1, false) + "::" + Capital(w2, false) == "Test::Man"
  {
    CapitalOf(w1, "Test");
    CapitalOf(w2, "Man");
  }

  lemma ConstantOfWords(s: string, ws: seq<string>, cs: seq<string>, parts: seq<string>)
    requires ':' !in s && RubySplit(s, "/") == ws && PascalSegments(ws) == cs && RejectEmpty(cs) == parts
    ensures ConstantName(s) == Join(parts, "::")
  {
    ConstantOfPath(s);
  }

  lemma RubySplitOfJoin(ws: seq<string>, sep: string)
    requires |sep| > 0 && |ws| >= 1 && ws[|ws| - 1] != []
    requires forall i :: 0 <= i < |ws| ==> sep[0] !in ws[i]
    ensures RubySplit(Join(ws, sep), sep) == ws
  {
    SplitOnJoin(ws, sep);
  }

  lemma PascalOfEmpty()
    ensures PascalCase("", false) == ""
  {
    PiecesEmpty();
    assert SplitCaseString("") == [];
  }

  lemma PascalSegmentsOf(ws: seq<string>, cs: seq<string>)
    requires |ws| == |cs| && forall i :: 0 <= i < |ws| ==> PascalCase(ws[i], false) == cs[i]
    ensures PascalSegments(ws) == cs
  {
  }

  lemma DropEmptyHead(ps: seq<string>, r: seq<string>)
    requires |ps| == 3 && ps[0] == [] && ps[1] != [] && ps[2] != [] && r == ps[1..]
    ensures RejectEmpty(ps) == r
  {
    assert ps[1..][1..] == [ps[2]];
    assert RejectEmpty([ps[2]]) == [ps[2]] + RejectEmpty([]);
    assert RejectEmpty(ps[1..]) == [ps[1]] + RejectEmpty([ps[2]]);
  }

}
