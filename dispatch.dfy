/**
  `convert_case` and `valid_case_type?`: the conversion chosen by the name
  of a style, and the `InvalidCaseError` raised for any other name.
*/
module Dispatch {
  import opened Wrappers
  import opened Text
  import opened Tokenizer
  import opened CaseRegistry
  import opened Converter
  import opened Mixed

  /** What `convert_case` can fail with. */
  datatype CaseError =
    | InvalidCaseError(message: string)
      /** The supplied draws ran out before `mixed_case` accepted an attempt. */
    | DrawsExhausted

  /** `CASES.keys`, as names. */
  function Names(): (names: seq<string>)
    ensures |names| == |Registry|
    ensures forall t :: Name(t) in names
  {
    var names := seq(|Registry|, i requires 0 <= i < |Registry| => Name(Registry[i]));
    forall t ensures Name(t) in names {
      RankInverse(t);
      assert Name(t) == names[Rank(t)];
    }
    names
  }

  /** The message of the error raised for an unknown style name. */
  function ErrorMessage(name: string): string
  {
    "Invalid case type '" + name + "'. Valid types are: " + Join(Names(), ", ")
  }

  /** `valid_case_type?`: the name is one of the keys of `CASES`. */
  function ValidCaseType(name: string): (b: bool)
    ensures b <==> exists t :: Name(t) == name
    ensures b <==> name in Names()
  {
    Parse(name).Some?
  }

  /** `self.send type, string, preserve_prefixed_underscores: preserve` for any style. */
  function Run(s: string, t: CaseType, preserve: bool, draws: seq<Draw>): (r: Result<string, CaseError>)
    requires t == Mixed ==> DrawsFit(draws, |SplitCaseString(s)|)
    ensures r.Failure? ==> r.error == DrawsExhausted
    ensures t != Mixed ==> r == Success(Convert(s, t, preserve))
    ensures t == Mixed ==> (r.Success? <==> MixedSpec(s, preserve, draws).Some?)
    ensures t == Mixed && r.Success? ==> r.value != s
  {
    if t == Mixed then
      match MixedSpec(s, preserve, draws)
      case None => Failure(DrawsExhausted)
      case Some(m) => Success(m)
    else Success(Convert(s, t, preserve))
  }

  /**
    `convert_case`: the converter the name selects, or `InvalidCaseError`.
    The mixed style takes its random choices from draws.
  */
  function ConvertCase(s: string, name: string, preserve: bool, draws: seq<Draw>): (r: Result<string, CaseError>)
    requires name == Name(Mixed) ==> DrawsFit(draws, |SplitCaseString(s)|)
    ensures (r.Failure? && r.error.InvalidCaseError?) <==> !ValidCaseType(name)
    ensures !ValidCaseType(name) ==> r == Failure(InvalidCaseError(ErrorMessage(name)))
    ensures forall t: PlainCase :: Parse(name) == Some(t) ==> r == Success(Convert(s, t, preserve))
    ensures name == Name(Mixed) ==> (r.Success? <==> MixedSpec(s, preserve, draws).Some?)
    ensures name == Name(Mixed) && r.Success? ==> r.value != s
  {
    ParseMixed(name);
    match Parse(name)
    case None => Failure(InvalidCaseError(ErrorMessage(name)))
    case Some(t) => Run(s, t, preserve, draws)
  }

  /** The name of a style dispatches to that style's converter, whatever the draws. */
  lemma ConvertCaseByName(s: string, t: PlainCase, preserve: bool, draws: seq<Draw>)
    ensures Name(t) != Name(Mixed)
    ensures ConvertCase(s, Name(t), preserve, draws) == Success(Convert(s, t, preserve))
  {
    RegistryComplete(t);
    ParseMixed(Name(t));
  }
}
