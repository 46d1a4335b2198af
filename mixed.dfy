/**
  `mixed_case`: every token is converted to a randomly drawn style, the
  concatenation is converted once more to a drawn style, and the attempt is
  retried until the result differs from the input.  The random draws are a
  parameter here: a finite list of attempts, each naming the style for every
  token and the style for the whole.
*/
module Mixed {
  import opened Wrappers
  import opened Prefix
  import opened Tokenizer
  import opened Converter

  /** The styles drawn for one attempt: one per token, and one for the whole. */
  datatype Draw = Draw(parts: seq<PlainCase>, whole: PlainCase)

  /** Every attempt draws one style per token. */
  predicate DrawsFit(draws: seq<Draw>, n: nat)
  {
    forall k :: 0 <= k < |draws| ==> |draws[k].parts| == n
  }

  /** `a.each { |part| converted += self.send type, part }`, accumulated left to right. */
  function ConvertParts(a: seq<string>, ts: seq<PlainCase>): string
    requires |ts| == |a|
    decreases |a|
  {
    if a == [] then ""
    else ConvertParts(a[..|a| - 1], ts[..|ts| - 1]) + Convert(a[|a| - 1], ts[|ts| - 1], true)
  }

  /** One pass of the retry loop's body. */
  function Attempt(a: seq<string>, d: Draw): string
    requires |d.parts| == |a|
  {
    Convert(ConvertParts(a, d.parts), d.whole, true)
  }

  /** The exit test of the retry loop. */
  predicate Accepted(s: string, converted: string)
  {
    converted != s && LeadingUnderscores(s) + converted != s
  }

  /** The results of the attempts the draws describe, in order. */
  function Attempts(a: seq<string>, draws: seq<Draw>): (cs: seq<string>)
    requires DrawsFit(draws, |a|)
    ensures |cs| == |draws|
  {
    seq(|draws|, k requires 0 <= k < |draws| => Attempt(a, draws[k]))
  }

  /** The first attempt the loop accepts, if the attempts last until then. */
  function FirstAccepted(s: string, cs: seq<string>): (r: Option<string>)
    ensures r.Some? ==> Accepted(s, r.value)
    ensures r.None? <==> forall k :: 0 <= k < |cs| ==> !Accepted(s, cs[k])
    decreases |cs|
  {
    if cs == [] then None
    else if Accepted(s, cs[0]) then Some(cs[0])
    else
      var rest := FirstAccepted(s, cs[1..]);
      assert forall k :: 1 <= k < |cs| ==> cs[k] == cs[1..][k - 1];
      rest
  }

  /** The accepted result is one of the attempts, and every attempt before it was rejected. */
  lemma {:induction false} FirstAcceptedIsFirst(s: string, cs: seq<string>)
    requires FirstAccepted(s, cs).Some?
    ensures exists k ::
              0 <= k < |cs| && FirstAccepted(s, cs).value == cs[k] &&
              (forall j :: 0 <= j < k ==> !Accepted(s, cs[j]))
    decreases |cs|
  {
    if !Accepted(s, cs[0]) {
      var rest := cs[1..];
      FirstAcceptedIsFirst(s, rest);
      var k :|
        0 <= k < |rest| && FirstAccepted(s, rest).value == rest[k] &&
        (forall j :: 0 <= j < k ==> !Accepted(s, rest[j]));
      assert cs[k + 1] == rest[k];
      assert forall j :: 1 <= j < k + 1 ==> cs[j] == rest[j - 1];
    }
  }

  /** What `mixed_case` returns for the given draws; None when they run out first. */
  function MixedSpec(s: string, preserve: bool, draws: seq<Draw>): (r: Option<string>)
    requires DrawsFit(draws, |SplitCaseString(s)|)
    ensures r.Some? ==> r.value != s
    ensures r.None? <==> forall k :: 0 <= k < |draws| ==> !Accepted(s, Attempt(SplitCaseString(s), draws[k]))
  {
    var cs := Attempts(SplitCaseString(s), draws);
    assert forall k :: 0 <= k < |draws| ==> cs[k] == Attempt(SplitCaseString(s), draws[k]);
    match FirstAccepted(s, cs)
    case None => None
    case Some(c) => Some(if preserve then LeadingUnderscores(s) + c else c)
  }

  method MixedCase(s: string, preserve: bool, draws: seq<Draw>) returns (r: Option<string>)
    requires DrawsFit(draws, |SplitCaseString(s)|)
    ensures r == MixedSpec(s, preserve, draws)
    ensures r.Some? ==> r.value != s
  {
    var a := SplitCaseString(s);
    var u := UnderscoresAtStart(s);
    ghost var cs := Attempts(a, draws);
    var k := 0;
    while k < |draws|
      invariant 0 <= k <= |draws|
      invariant FirstAccepted(s, cs[k..]) == FirstAccepted(s, cs)
    {
      var converted := RunAttempt(a, draws[k]);
      assert converted == cs[k];
      AttemptStep(s, cs, k);
      if converted != s && u + converted != s {
        if preserve {
          r := Some(u + converted);
        } else {
          r := Some(converted);
        }
        return;
      }
      k := k + 1;
    }
    assert cs[k..] == [];
    r := None;
  }

  /** The body of the retry loop: convert every token, then the whole. */
  method RunAttempt(a: seq<string>, d: Draw) returns (converted: string)
    requires |d.parts| == |a|
    ensures converted == Attempt(a, d)
  {
    converted := "";
    var j := 0;
    while j < |a|
      invariant 0 <= j <= |a|
      invariant converted == ConvertParts(a[..j], d.parts[..j])
    {
      converted := converted + Convert(a[j], d.parts[j], true);
      PartsStep(a, d.parts, j);
      j := j + 1;
    }
    assert a[..j] == a && d.parts[..j] == d.parts;
    converted := Convert(converted, d.whole, true);
  }

  /** One turn of the retry loop: an accepted attempt is the answer, a rejected one is skipped. */
  lemma AttemptStep(s: string, cs: seq<string>, k: nat)
    requires k < |cs|
    ensures Accepted(s, cs[k]) ==> FirstAccepted(s, cs[k..]) == Some(cs[k])
    ensures !Accepted(s, cs[k]) ==> FirstAccepted(s, cs[k..]) == FirstAccepted(s, cs[k + 1..])
  {
    assert cs[k..][0] == cs[k];
    assert cs[k..][1..] == cs[k + 1..];
  }

  lemma PartsStep(a: seq<string>, ts: seq<PlainCase>, j: nat)
    requires |ts| == |a| && j < |a|
    ensures ConvertParts(a[..j + 1], ts[..j + 1]) == ConvertParts(a[..j], ts[..j]) + Convert(a[j], ts[j], true)
  {
    assert a[..j + 1][..j] == a[..j];
    assert ts[..j + 1][..j] == ts[..j];
  }
}
