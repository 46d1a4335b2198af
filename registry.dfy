/**
  The closed table `CASES`: twelve letter-case styles, each recognised by
  one anchored pattern, in the priority order the classifier scans them.
  Each regular expression of the table is written out below as a predicate
  over the ASCII classes [[:upper:]], [[:lower:]] and 0-9.
*/
module CaseRegistry {
  import opened Wrappers
  import opened Text

  datatype CaseType =
    | Snake | UpperSnake | Pascal | Camel | Dash | UpperDash
    | Train | Word | UpperWord | CapitalWord | Sentence | Mixed

  /** The keys of `CASES`, in their order. */
  const Registry: seq<CaseType> :=
    [Snake, UpperSnake, Pascal, Camel, Dash, UpperDash, Train, Word, UpperWord, CapitalWord, Sentence, Mixed]

  /** The symbol naming each style. */
  function Name(t: CaseType): string
  {
    match t
    case Snake => "snake_case"
    case UpperSnake => "upper_snake_case"
    case Pascal => "pascal_case"
    case Camel => "camel_case"
    case Dash => "dash_case"
    case UpperDash => "upper_dash_case"
    case Train => "train_case"
    case Word => "word_case"
    case UpperWord => "upper_word_case"
    case CapitalWord => "capital_word_case"
    case Sentence => "sentence_case"
    case Mixed => "mixed_case"
  }

  /** The style a symbol names, if any: `CASES.include?(name.to_sym)`. */
  function Parse(name: string): (r: Option<CaseType>)
    ensures r.Some? ==> Name(r.value) == name
    ensures r.None? ==> forall t :: Name(t) != name
  {
    if name == "snake_case" then Some(Snake)
    else if name == "upper_snake_case" then Some(UpperSnake)
    else if name == "pascal_case" then Some(Pascal)
    else if name == "camel_case" then Some(Camel)
    else if name == "dash_case" then Some(Dash)
    else if name == "upper_dash_case" then Some(UpperDash)
    else if name == "train_case" then Some(Train)
    else if name == "word_case" then Some(Word)
    else if name == "upper_word_case" then Some(UpperWord)
    else if name == "capital_word_case" then Some(CapitalWord)
    else if name == "sentence_case" then Some(Sentence)
    else if name == "mixed_case" then Some(Mixed)
    else None
  }

  /** The position of a style in `CASES`. */
  function Rank(t: CaseType): (k: nat)
    ensures k < |Registry|
  {
    match t
    case Snake => 0
    case UpperSnake => 1
    case Pascal => 2
    case Camel => 3
    case Dash => 4
    case UpperDash => 5
    case Train => 6
    case Word => 7
    case UpperWord => 8
    case CapitalWord => 9
    case Sentence => 10
    case Mixed => 11
  }

  /** Rank and table lookup are inverse to each other. */
  lemma RankOf(k: nat)
    requires k < |Registry|
    ensures Rank(Registry[k]) == k
  {
  }

  lemma RankInverse(t: CaseType)
    ensures Registry[Rank(t)] == t
  {
  }

  /** Every style occurs in the table, and its symbol names it. */
  lemma RegistryComplete(t: CaseType)
    ensures t in Registry
    ensures Parse(Name(t)) == Some(t)
  {
    RankInverse(t);
    match t {
      case Snake => case UpperSnake => case Pascal => case Camel =>
      case Dash => case UpperDash => case Train => case Word =>
      case UpperWord => case CapitalWord => case Sentence => case Mixed =>
    }
  }

  /** No style occurs in the table twice. */
  lemma RegistryDistinct()
    ensures forall i, j :: 0 <= i < j < |Registry| ==> Registry[i] != Registry[j]
  {
    forall i, j | 0 <= i < j < |Registry| ensures Registry[i] != Registry[j] {
      RankOf(i);
      RankOf(j);
    }
  }

  /** Only the symbol of the mixed style parses to it. */
  lemma ParseMixed(name: string)
    ensures Parse(name) == Some(Mixed) <==> name == Name(Mixed)
  {
  }

  // ---------------------------------------------------------------------------
  // The patterns
  // ---------------------------------------------------------------------------

  /** `^[[:lower:]]{1}[[:lower:]_0-9]+$` */
  predicate SnakePattern(s: string)
  {
    |s| >= 2 && IsLower(s[0]) &&
    forall i :: 1 <= i < |s| ==> IsLower(s[i]) || s[i] == '_' || IsDigit(s[i])
  }

  /** `^[[:upper:]]{1}[[:upper:]_0-9]+$` */
  predicate UpperSnakePattern(s: string)
  {
    |s| >= 2 && IsUpper(s[0]) &&
    forall i :: 1 <= i < |s| ==> IsUpper(s[i]) || s[i] == '_' || IsDigit(s[i])
  }

  /** `^[[:upper:]]{1}[[:upper:][:lower:]0-9]+$` */
  predicate PascalPattern(s: string)
  {
    |s| >= 2 && IsUpper(s[0]) &&
    forall i :: 1 <= i < |s| ==> IsLetter(s[i]) || IsDigit(s[i])
  }

  /** `^[[:lower:]]{1}[[:upper:][:lower:]0-9]+$` */
  predicate CamelPattern(s: string)
  {
    |s| >= 2 && IsLower(s[0]) &&
    forall i :: 1 <= i < |s| ==> IsLetter(s[i]) || IsDigit(s[i])
  }

  /** `^([[:lower:]]){1}[[:lower:]\-0-9]*[[:lower:]0-9]+$`: the last character is no dash. */
  predicate DashPattern(s: string)
  {
    |s| >= 2 && IsLower(s[0]) &&
    (forall i :: 1 <= i < |s| ==> IsLower(s[i]) || s[i] == '-' || IsDigit(s[i])) &&
    (IsLower(s[|s| - 1]) || IsDigit(s[|s| - 1]))
  }

  /** `^([[:upper:]]){1}[[:upper:]\-0-9]*[[:upper:]0-9]+$` */
  predicate UpperDashPattern(s: string)
  {
    |s| >= 2 && IsUpper(s[0]) &&
    (forall i :: 1 <= i < |s| ==> IsUpper(s[i]) || s[i] == '-' || IsDigit(s[i])) &&
    (IsUpper(s[|s| - 1]) || IsDigit(s[|s| - 1]))
  }

  /** `[[:upper:]][[:lower:]0-9]*` */
  predicate CapitalizedSegment(w: string)
  {
    |w| >= 1 && IsUpper(w[0]) && forall i :: 1 <= i < |w| ==> IsLower(w[i]) || IsDigit(w[i])
  }

  /** `[0-9]+` */
  predicate NumericSegment(w: string)
  {
    |w| >= 1 && forall i :: 0 <= i < |w| ==> IsDigit(w[i])
  }

  /**
    `^(C\s|[0-9]+\s)*(C)$` with C the capitalized segment and s the separator:
    since no segment holds the separator, the string is matched exactly when
    the pieces between separators are capitalized or numeric, the last one
    capitalized.
  */
  predicate SegmentsPattern(s: string, sep: char)
  {
    var ws := SplitOn(s, [sep]);
    (forall i :: 0 <= i < |ws| - 1 ==> CapitalizedSegment(ws[i]) || NumericSegment(ws[i])) &&
    CapitalizedSegment(ws[|ws| - 1])
  }

  /** `^([[:upper:]][[:lower:]0-9]*\-|[0-9]+\-)*([[:upper:]][[:lower:]0-9]*)$` */
  predicate TrainPattern(s: string)
  {
    SegmentsPattern(s, '-')
  }

  /** `^[[:lower:]]{1}[[:lower:] 0-9]+$` */
  predicate WordPattern(s: string)
  {
    |s| >= 2 && IsLower(s[0]) &&
    forall i :: 1 <= i < |s| ==> IsLower(s[i]) || s[i] == ' ' || IsDigit(s[i])
  }

  /** `^[[:upper:]]{1}[[:upper:] 0-9]+$` */
  predicate UpperWordPattern(s: string)
  {
    |s| >= 2 && IsUpper(s[0]) &&
    forall i :: 1 <= i < |s| ==> IsUpper(s[i]) || s[i] == ' ' || IsDigit(s[i])
  }

  /** `^([[:upper:]][[:lower:]0-9]*\ |[0-9]+\ )*([[:upper:]][[:lower:]0-9]*)$` */
  predicate CapitalWordPattern(s: string)
  {
    SegmentsPattern(s, ' ')
  }

  /** `^[[:upper:]]{1}[[:lower:] 0-9]+$` */
  predicate SentencePattern(s: string)
  {
    |s| >= 2 && IsUpper(s[0]) &&
    forall i :: 1 <= i < |s| ==> IsLower(s[i]) || s[i] == ' ' || IsDigit(s[i])
  }

  /** `^[[:upper:][:lower:]][[:upper:][:lower:]_\-0-9 ]*$` */
  predicate MixedPattern(s: string)
  {
    |s| >= 1 && IsLetter(s[0]) &&
    forall i :: 1 <= i < |s| ==> IsLetter(s[i]) || s[i] == '_' || s[i] == '-' || IsDigit(s[i]) || s[i] == ' '
  }

  /** `s =~ CASES[t]` */
  predicate Matches(s: string, t: CaseType)
  {
    match t
    case Snake => SnakePattern(s)
    case UpperSnake => UpperSnakePattern(s)
    case Pascal => PascalPattern(s)
    case Camel => CamelPattern(s)
    case Dash => DashPattern(s)
    case UpperDash => UpperDashPattern(s)
    case Train => TrainPattern(s)
    case Word => WordPattern(s)
    case UpperWord => UpperWordPattern(s)
    case CapitalWord => CapitalWordPattern(s)
    case Sentence => SentencePattern(s)
    case Mixed => MixedPattern(s)
  }

  /** A string of capitalized or numeric segments holds letters, digits and the separator only. */
  lemma SegmentsChars(s: string, sep: char)
    requires SegmentsPattern(s, sep)
    ensures forall i :: 0 <= i < |s| ==> s[i] == sep || IsLetter(s[i]) || IsDigit(s[i])
  {
    var ws := SplitOn(s, [sep]);
    JoinSplitOn(s, [sep]);
    JoinChars(ws, [sep]);
    forall i | 0 <= i < |s| ensures s[i] == sep || IsLetter(s[i]) || IsDigit(s[i]) {
      assert s[i] in Join(ws, [sep]);
      if s[i] != sep {
        var k :| 0 <= k < |ws| && s[i] in ws[k];
        var j :| 0 <= j < |ws[k]| && ws[k][j] == s[i];
      }
    }
  }

  /**
    Whatever another pattern matches, the mixed pattern matches too, as long
    as it starts with a letter (train and capital-word strings may start
    with a digit); this is why `cases` drops the mixed style from a result
    with other members.
  */
  lemma MixedIsBroadest(s: string, t: CaseType)
    requires Matches(s, t) && t != Mixed
    requires |s| >= 1 && IsLetter(s[0])
    ensures Matches(s, Mixed)
  {
    if t == Train {
      SegmentsChars(s, '-');
    } else if t == CapitalWord {
      SegmentsChars(s, ' ');
    }
  }
}
