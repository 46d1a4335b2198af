/**
  `case`, `cases`, the per-style checks (`snake_case?` ... `mixed_case?`,
  all `_case_match?` on the possibly prefix-stripped string) and
  `valid_case_string?`.
*/
module Classifier {
  import opened Wrappers
  import opened Text
  import opened Prefix
  import opened CaseRegistry

  /** The string the patterns are tried on: without its leading `_` run when that is allowed. */
  function Subject(s: string, allowPrefixed: bool): string
  {
    if allowPrefixed then WithoutLeadingUnderscores(s) else s
  }

  /** Whether each style's pattern matches the string under test. */
  function Matcher(x: string): CaseType -> bool
  {
    t => Matches(x, t)
  }

  /** The first style of `CASES`, from position k on, that m accepts. */
  function FirstMatchFrom(m: CaseType -> bool, k: nat): (r: Option<CaseType>)
    requires k <= |Registry|
    ensures r.None? <==> forall i :: k <= i < |Registry| ==> !m(Registry[i])
    ensures r.Some? ==> m(r.value) && k <= Rank(r.value)
    ensures r.Some? ==> forall i :: k <= i < Rank(r.value) ==> !m(Registry[i])
    decreases |Registry| - k
  {
    if k == |Registry| then None
    else if m(Registry[k]) then (RankOf(k); Some(Registry[k]))
    else FirstMatchFrom(m, k + 1)
  }

  /** What `case` answers. */
  function ClassifyOne(s: string, allowPrefixed: bool): Option<CaseType>
  {
    FirstMatchFrom(Matcher(Subject(s, allowPrefixed)), 0)
  }

  /** The styles of `CASES` from position k on that m accepts, in table order. */
  function MatchingFrom(m: CaseType -> bool, k: nat): seq<CaseType>
    requires k <= |Registry|
    decreases |Registry| - k
  {
    if k == |Registry| then []
    else if m(Registry[k]) then [Registry[k]] + MatchingFrom(m, k + 1)
    else MatchingFrom(m, k + 1)
  }

  /** `matched_cases.reject { |e| e == :mixed_case }` */
  function WithoutMixed(ts: seq<CaseType>): (r: seq<CaseType>)
    ensures forall t :: t in r <==> t in ts && t != Mixed
  {
    if ts == [] then []
    else if ts[0] == Mixed then WithoutMixed(ts[1..])
    else [ts[0]] + WithoutMixed(ts[1..])
  }

  /** The rule of `cases` on the collected matches: nil when there are none, the mixed style dropped when there are several. */
  function Select(matched: seq<CaseType>): Option<seq<CaseType>>
  {
    if |matched| == 0 then None
    else if |matched| > 1 then Some(WithoutMixed(matched))
    else Some(matched)
  }

  /** What `cases` answers. */
  function ClassifyAll(s: string, allowPrefixed: bool): Option<seq<CaseType>>
  {
    Select(MatchingFrom(Matcher(Subject(s, allowPrefixed)), 0))
  }

  /** `case`: the loop over `CASES` that returns at the first match. */
  method Case(s: string, allowPrefixed: bool) returns (r: Option<CaseType>)
    ensures r == ClassifyOne(s, allowPrefixed)
  {
    var x := s;
    if allowPrefixed {
      x := CutUnderscoresAtStart(s);
    }
    var m := Matcher(x);
    var i := 0;
    while i < |Registry|
      invariant i <= |Registry|
      invariant FirstMatchFrom(m, i) == ClassifyOne(s, allowPrefixed)
    {
      if m(Registry[i]) {
        return Some(Registry[i]);
      }
      i := i + 1;
    }
    return None;
  }

  /** The loop of `cases`: every style of `CASES` that m accepts, in table order. */
  method CollectMatches(m: CaseType -> bool) returns (matched: seq<CaseType>)
    ensures matched == MatchingFrom(m, 0)
  {
    matched := [];
    var i := 0;
    while i < |Registry|
      invariant i <= |Registry|
      invariant matched + MatchingFrom(m, i) == MatchingFrom(m, 0)
    {
      MatchingStep(m, i, matched);
      if m(Registry[i]) {
        matched := matched + [Registry[i]];
      }
      i := i + 1;
    }
    assert MatchingFrom(m, i) == [];
  }

  /** One turn of the loop of `cases` keeps the collected and the remaining matches together. */
  lemma MatchingStep(m: CaseType -> bool, i: nat, matched: seq<CaseType>)
    requires i < |Registry|
    ensures matched + MatchingFrom(m, i) ==
      (if m(Registry[i]) then matched + [Registry[i]] else matched) + MatchingFrom(m, i + 1)
  {
    var rest := MatchingFrom(m, i + 1);
    if m(Registry[i]) {
      assert (matched + [Registry[i]]) + rest == matched + ([Registry[i]] + rest);
    }
  }

  /** `cases`: every matching style, then the mixed rule. */
  method Cases(s: string, allowPrefixed: bool) returns (r: Option<seq<CaseType>>)
    ensures r == ClassifyAll(s, allowPrefixed)
  {
    var x := s;
    if allowPrefixed {
      x := CutUnderscoresAtStart(s);
    }
    var matched := CollectMatches(Matcher(x));
    if |matched| == 0 {
      r := None;
    } else if |matched| > 1 {
      r := Some(WithoutMixed(matched));
    } else {
      r := Some(matched);
    }
    assert r == Select(matched);
  }

  /** `snake_case?` ... `mixed_case?`: `_case_match?` on the subject string. */
  predicate IsCase(s: string, t: CaseType, allowPrefixed: bool)
  {
    Matcher(Subject(s, allowPrefixed))(t)
  }

  /** `valid_case_string?`: `case` (prefix allowed) finds a style. */
  function ValidCaseString(s: string): (b: bool)
    ensures b <==> exists t :: IsCase(s, t, true)
  {
    ClassifyOneFirstMatch(s, true, Mixed);
    ClassifyOne(s, true).Some?
  }

  // ---------------------------------------------------------------------------
  // Properties of the classifier
  // ---------------------------------------------------------------------------

  /** The first style m accepts is the accepted style of lowest rank. */
  lemma FirstMatchIsLeast(m: CaseType -> bool, t: CaseType)
    ensures FirstMatchFrom(m, 0) == Some(t) <==> m(t) && forall u :: m(u) ==> Rank(t) <= Rank(u)
    ensures FirstMatchFrom(m, 0).None? <==> forall u :: !m(u)
  {
    var r := FirstMatchFrom(m, 0);
    if r.Some? {
      forall u | m(u) ensures Rank(r.value) <= Rank(u) {
        RankInverse(u);
      }
      if m(t) && (forall u :: m(u) ==> Rank(t) <= Rank(u)) {
        RankInverse(t);
        RankInverse(r.value);
      }
    } else {
      forall u ensures !m(u) {
        RankInverse(u);
      }
    }
  }

  /** `case` answers the matching style of lowest rank, and nil only when no style matches. */
  lemma ClassifyOneFirstMatch(s: string, allowPrefixed: bool, t: CaseType)
    ensures ClassifyOne(s, allowPrefixed) == Some(t) <==>
      IsCase(s, t, allowPrefixed) && forall u :: IsCase(s, u, allowPrefixed) ==> Rank(t) <= Rank(u)
    ensures ClassifyOne(s, allowPrefixed).None? <==> forall u :: !IsCase(s, u, allowPrefixed)
  {
    var m := Matcher(Subject(s, allowPrefixed));
    FirstMatchIsLeast(m, t);
    assert forall u :: IsCase(s, u, allowPrefixed) == m(u);
  }

  /** The styles collected from position k on are exactly the accepted ones of rank k or more. */
  lemma {:induction false} MatchingFromMembers(m: CaseType -> bool, k: nat)
    requires k <= |Registry|
    ensures forall t :: t in MatchingFrom(m, k) <==> k <= Rank(t) && m(t)
    decreases |Registry| - k
  {
    if k < |Registry| {
      MatchingFromMembers(m, k + 1);
      RankOf(k);
    }
  }

  /** The collected styles are in strictly increasing table order. */
  lemma {:induction false} MatchingDistinct(m: CaseType -> bool, k: nat)
    requires k <= |Registry|
    ensures forall i, j :: 0 <= i < j < |MatchingFrom(m, k)| ==> Rank(MatchingFrom(m, k)[i]) < Rank(MatchingFrom(m, k)[j])
    decreases |Registry| - k
  {
    if k < |Registry| {
      MatchingDistinct(m, k + 1);
      MatchingFromMembers(m, k + 1);
      RankOf(k);
      var rest := MatchingFrom(m, k + 1);
      forall j | 0 <= j < |rest| ensures k < Rank(rest[j]) {
        assert rest[j] in rest;
      }
    }
  }

  /** The rule of `cases`, for any matcher: nil exactly when nothing matches. */
  lemma SelectNone(m: CaseType -> bool)
    ensures Select(MatchingFrom(m, 0)).None? <==> forall u :: !m(u)
  {
    var matched := MatchingFrom(m, 0);
    MatchingFromMembers(m, 0);
    if matched != [] {
      assert matched[0] in matched;
    }
  }

  /** Otherwise it keeps exactly the matches, the mixed style only when nothing else matches. */
  lemma SelectMembers(m: CaseType -> bool, t: CaseType)
    requires Select(MatchingFrom(m, 0)).Some?
    ensures t in Select(MatchingFrom(m, 0)).value <==> m(t) && (t == Mixed ==> forall u :: u != Mixed ==> !m(u))
  {
    if |MatchingFrom(m, 0)| > 1 {
      SelectSeveral(m, t);
    } else {
      SelectSingle(m, t);
    }
  }

  lemma SelectSeveral(m: CaseType -> bool, t: CaseType)
    requires |MatchingFrom(m, 0)| > 1
    ensures t in WithoutMixed(MatchingFrom(m, 0)) <==> m(t) && t != Mixed
    ensures exists u :: u != Mixed && m(u)
  {
    MatchingFromMembers(m, 0);
    SelectOthersBesideMixed(m);
  }

  lemma SelectSingle(m: CaseType -> bool, t: CaseType)
    requires |MatchingFrom(m, 0)| == 1
    ensures t in MatchingFrom(m, 0) <==> m(t) && (t == Mixed ==> forall u :: u != Mixed ==> !m(u))
  {
    MatchingFromMembers(m, 0);
    if t == Mixed && t in MatchingFrom(m, 0) {
      assert MatchingFrom(m, 0) == [Mixed];
      OnlyMatchAlone(m, Mixed);
    }
  }

  /** The only collected style is the only accepted one. */
  lemma OnlyMatchAlone(m: CaseType -> bool, v: CaseType)
    requires MatchingFrom(m, 0) == [v]
    ensures forall u :: u != v ==> !m(u)
  {
    MatchingFromMembers(m, 0);
    forall u | u != v ensures !m(u) {
      assert u !in MatchingFrom(m, 0);
    }
  }

  /** When several styles match, one of them is not the mixed style. */
  lemma SelectOthersBesideMixed(m: CaseType -> bool)
    requires |MatchingFrom(m, 0)| > 1
    ensures MatchingFrom(m, 0)[0] != Mixed && m(MatchingFrom(m, 0)[0])
  {
    var matched := MatchingFrom(m, 0);
    MatchingFromMembers(m, 0);
    MatchingDistinct(m, 0);
    assert Rank(matched[0]) < Rank(matched[1]);
    assert matched[0] in matched;
  }

  /** `cases` is nil exactly when no style matches; otherwise it lists exactly the matching styles, the mixed style only when nothing else matches. */
  lemma ClassifyAllMembers(s: string, allowPrefixed: bool, t: CaseType)
    ensures ClassifyAll(s, allowPrefixed).None? <==> forall u :: !IsCase(s, u, allowPrefixed)
    ensures ClassifyAll(s, allowPrefixed).Some? ==>
      (t in ClassifyAll(s, allowPrefixed).value <==>
        IsCase(s, t, allowPrefixed) && (t == Mixed ==> forall u :: u != Mixed ==> !IsCase(s, u, allowPrefixed)))
  {
    var m := Matcher(Subject(s, allowPrefixed));
    SelectNone(m);
    if Select(MatchingFrom(m, 0)).Some? {
      SelectMembers(m, t);
    }
    assert forall u :: IsCase(s, u, allowPrefixed) == m(u);
  }

  /** When the first match is the mixed style, the rule of `cases` answers it alone. */
  lemma SelectMixedAlone(m: CaseType -> bool)
    requires FirstMatchFrom(m, 0) == Some(Mixed)
    ensures Select(MatchingFrom(m, 0)) == Some([Mixed])
  {
    var matched := MatchingFrom(m, 0);
    FirstMatchIsLeast(m, Mixed);
    MatchingFromMembers(m, 0);
    MatchingDistinct(m, 0);
    assert Mixed in matched;
    forall u | u in matched ensures u == Mixed {
      assert Rank(Mixed) <= Rank(u);
    }
    assert matched[0] in matched;
    assert |matched| == 1;
    assert matched == [Mixed];
  }

  /** The first match heads the list the rule of `cases` gives. */
  lemma FirstHeadsSelect(m: CaseType -> bool)
    requires FirstMatchFrom(m, 0).Some?
    ensures Select(MatchingFrom(m, 0)).Some? && |Select(MatchingFrom(m, 0)).value| > 0
    ensures Select(MatchingFrom(m, 0)).value[0] == FirstMatchFrom(m, 0).value
  {
    var t := FirstMatchFrom(m, 0).value;
    var matched := MatchingFrom(m, 0);
    FirstMatchIsLeast(m, t);
    MatchingFromMembers(m, 0);
    MatchingDistinct(m, 0);
    assert t in matched;
    assert matched[0] in matched;
    var k :| 0 <= k < |matched| && matched[k] == t;
    assert matched[0] == t;
    if t == Mixed {
      SelectMixedAlone(m);
    } else if |matched| > 1 {
      assert WithoutMixed(matched) == [t] + WithoutMixed(matched[1..]);
    }
  }

  /** `case` and `cases` agree: nil together, and the answer of `case` heads the list of `cases`. */
  lemma ClassifyOneHeadsClassifyAll(s: string, allowPrefixed: bool)
    ensures ClassifyAll(s, allowPrefixed).None? <==> ClassifyOne(s, allowPrefixed).None?
    ensures ClassifyOne(s, allowPrefixed).Some? ==>
      ClassifyAll(s, allowPrefixed).Some? && |ClassifyAll(s, allowPrefixed).value| > 0 &&
      ClassifyAll(s, allowPrefixed).value[0] == ClassifyOne(s, allowPrefixed).value
    ensures ClassifyOne(s, allowPrefixed) == Some(Mixed) ==> ClassifyAll(s, allowPrefixed) == Some([Mixed])
  {
    var m := Matcher(Subject(s, allowPrefixed));
    FirstMatchIsLeast(m, Mixed);
    SelectNone(m);
    if FirstMatchFrom(m, 0).Some? {
      FirstHeadsSelect(m);
    }
    if FirstMatchFrom(m, 0) == Some(Mixed) {
      SelectMixedAlone(m);
    }
  }

  /** Styles in strictly increasing table order. */
  predicate InTableOrder(ts: seq<CaseType>)
  {
    forall i, j :: 0 <= i < j < |ts| ==> Rank(ts[i]) < Rank(ts[j])
  }

  /** Dropping the mixed style keeps the others in their order. */
  lemma {:induction false} WithoutMixedOrdered(ts: seq<CaseType>)
    requires InTableOrder(ts)
    ensures InTableOrder(WithoutMixed(ts))
    decreases |ts|
  {
    if ts != [] {
      var rest := ts[1..];
      assert InTableOrder(rest) by {
        forall i, j | 0 <= i < j < |rest| ensures Rank(rest[i]) < Rank(rest[j]) {
          assert rest[i] == ts[i + 1] && rest[j] == ts[j + 1];
        }
      }
      WithoutMixedOrdered(rest);
      if ts[0] != Mixed {
        var w := WithoutMixed(rest);
        forall j | 0 <= j < |w| ensures Rank(ts[0]) < Rank(w[j]) {
          assert w[j] in w;
          var k :| 0 <= k < |rest| && rest[k] == w[j];
          assert rest[k] == ts[k + 1];
        }
      }
    }
  }

  /** `cases` lists the styles in the order of `CASES`, each once. */
  lemma ClassifyAllOrdered(s: string, allowPrefixed: bool)
    ensures ClassifyAll(s, allowPrefixed).Some? ==> InTableOrder(ClassifyAll(s, allowPrefixed).value)
  {
    var matched := MatchingFrom(Matcher(Subject(s, allowPrefixed)), 0);
    MatchingDistinct(Matcher(Subject(s, allowPrefixed)), 0);
    if |matched| > 1 {
      WithoutMixedOrdered(matched);
    }
  }

  // ---------------------------------------------------------------------------
  // Examples from the library's own tests
  // ---------------------------------------------------------------------------

  /** Which patterns match "Single". */
  lemma SinglePatterns(t: CaseType)
    ensures Matches("Single", t) <==> t == Pascal || t == Train || t == CapitalWord || t == Sentence || t == Mixed
  {
    var x := "Single";
    assert !IsLower(x[0]) && !IsUpper(x[1]);
    if t == Train || t == CapitalWord {
      SingleSegments();
    }
  }

  lemma SingleSegments()
    ensures TrainPattern("Single") && CapitalWordPattern("Single")
  {
    SplitOnNoSep("Single", "-");
    SplitOnNoSep("Single", " ");
    assert CapitalizedSegment("Single");
  }

  /** `cases("Single")` is pascal, train, capital-word and sentence case. */
  lemma SingleExample()
    ensures ClassifyAll("Single", true) == Some([Pascal, Train, CapitalWord, Sentence])
  {
    var x := "Single";
    assert PrefixLength(x) == 0;
    assert Subject(x, true) == x;
    var m := Matcher(x);
    forall t ensures m(t) == (t == Pascal || t == Train || t == CapitalWord || t == Sentence || t == Mixed) {
      SinglePatterns(t);
    }
    SingleSelect(m);
  }

  lemma SingleTail(m: CaseType -> bool)
    requires forall t :: m(t) == (t == Pascal || t == Train || t == CapitalWord || t == Sentence || t == Mixed)
    ensures MatchingFrom(m, 6) == [Train, CapitalWord, Sentence, Mixed]
  {
    assert m(Mixed) && m(Sentence) && m(CapitalWord) && m(Train);
    assert !m(UpperWord) && !m(Word);
    assert MatchingFrom(m, 11) == [Mixed];
    assert MatchingFrom(m, 10) == [Sentence, Mixed];
    assert MatchingFrom(m, 9) == [CapitalWord, Sentence, Mixed];
    assert MatchingFrom(m, 7) == [CapitalWord, Sentence, Mixed];
  }

  lemma SingleMatching(m: CaseType -> bool)
    requires forall t :: m(t) == (t == Pascal || t == Train || t == CapitalWord || t == Sentence || t == Mixed)
    ensures MatchingFrom(m, 0) == [Pascal, Train, CapitalWord, Sentence, Mixed]
  {
    SingleTail(m);
    assert m(Pascal);
    assert !m(UpperDash) && !m(Dash) && !m(Camel) && !m(UpperSnake) && !m(Snake);
    assert MatchingFrom(m, 4) == [Train, CapitalWord, Sentence, Mixed];
    assert MatchingFrom(m, 2) == [Pascal, Train, CapitalWord, Sentence, Mixed];
  }

  lemma SingleSelect(m: CaseType -> bool)
    requires forall t :: m(t) == (t == Pascal || t == Train || t == CapitalWord || t == Sentence || t == Mixed)
    ensures Select(MatchingFrom(m, 0)) == Some([Pascal, Train, CapitalWord, Sentence])
  {
    SingleMatching(m);
    assert WithoutMixed([Pascal, Train, CapitalWord, Sentence, Mixed]) == [Pascal, Train, CapitalWord, Sentence];
  }

  /** Which patterns match a word of two or more lower-case letters, such as "lotofcases". */
  lemma LowerWordPatterns(x: string, t: CaseType)
    requires |x| >= 2 && forall i :: 0 <= i < |x| ==> IsLower(x[i])
    ensures Matches(x, t) <==> t == Snake || t == Camel || t == Dash || t == Word || t == Mixed
  {
    if t == Train || t == CapitalWord {
      var sep := if t == Train then '-' else ' ';
      assert forall i :: 0 <= i < |x| ==> x[i] != sep;
      SplitOnNoSep(x, [sep]);
    }
  }

  /** `cases` of such a word is snake, camel, dash and word case. */
  lemma LowerWordExample(x: string)
    requires |x| >= 2 && forall i :: 0 <= i < |x| ==> IsLower(x[i])
    ensures ClassifyAll(x, true) == Some([Snake, Camel, Dash, Word])
  {
    PrefixOfConcat([], x);
    assert [] + x == x;
    var m := Matcher(Subject(x, true));
    forall t ensures m(t) == (t == Snake || t == Camel || t == Dash || t == Word || t == Mixed) {
      LowerWordPatterns(x, t);
    }
    LowerWordSelect(m);
  }

  lemma LowerWordTail(m: CaseType -> bool)
    requires forall t :: m(t) == (t == Snake || t == Camel || t == Dash || t == Word || t == Mixed)
    ensures MatchingFrom(m, 6) == [Word, Mixed]
  {
    assert m(Mixed) && !m(Sentence) && !m(CapitalWord) && !m(UpperWord) && m(Word) && !m(Train);
    assert MatchingFrom(m, 11) == [Mixed];
    assert MatchingFrom(m, 8) == [Mixed];
    assert MatchingFrom(m, 7) == [Word, Mixed];
  }

  lemma LowerWordSelect(m: CaseType -> bool)
    requires forall t :: m(t) == (t == Snake || t == Camel || t == Dash || t == Word || t == Mixed)
    ensures Select(MatchingFrom(m, 0)) == Some([Snake, Camel, Dash, Word])
  {
    LowerWordTail(m);
    assert m(Snake) && !m(UpperSnake) && !m(Pascal) && m(Camel) && m(Dash) && !m(UpperDash);
    assert MatchingFrom(m, 4) == [Dash, Word, Mixed];
    assert MatchingFrom(m, 0) == [Snake, Camel, Dash, Word, Mixed];
    assert WithoutMixed([Snake, Camel, Dash, Word, Mixed]) == [Snake, Camel, Dash, Word];
  }
}
