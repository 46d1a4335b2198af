/**
  The run of `_` at the start of a string, which every converter can keep
  aside and re-attach (`underscores_at_start`, `cut_underscores_at_start`).
*/
module Prefix {

  /** How many `_` the string starts with. */
  function PrefixLength(s: string): (n: nat)
    ensures n <= |s|
    ensures forall i :: 0 <= i < n ==> s[i] == '_'
    ensures n == |s| || s[n] != '_'
  {
    if |s| > 0 && s[0] == '_' then 1 + PrefixLength(s[1..]) else 0
  }

  /** `underscores_at_start`: a string of `_` only, and a prefix of s. */
  function LeadingUnderscores(s: string): (u: string)
    ensures forall i :: 0 <= i < |u| ==> u[i] == '_'
    ensures |u| <= |s| && u == s[..|u|]
  {
    seq(PrefixLength(s), _ => '_')
  }

  /** `cut_underscores_at_start`: the rest, which does not start with `_`. */
  function WithoutLeadingUnderscores(s: string): (r: string)
    ensures r == [] || r[0] != '_'
    ensures LeadingUnderscores(s) + r == s
  {
    s[PrefixLength(s)..]
  }

  /** A run of underscores put in front of a string that does not start with one is its prefix. */
  lemma {:induction false} PrefixOfConcat(u: string, body: string)
    requires forall i :: 0 <= i < |u| ==> u[i] == '_'
    requires body == [] || body[0] != '_'
    ensures LeadingUnderscores(u + body) == u
    ensures WithoutLeadingUnderscores(u + body) == body
    decreases |u|
  {
    if u != [] {
      PrefixOfConcat(u[1..], body);
      assert (u + body)[1..] == u[1..] + body;
    } else {
      assert u + body == body;
    }
  }

  /** The counting loop both helpers of the source run. */
  method CountUnderscoresAtStart(s: string) returns (counter: nat)
    ensures counter == PrefixLength(s)
  {
    counter := 0;
    while counter < |s|
      invariant counter <= |s|
      invariant forall i :: 0 <= i < counter ==> s[i] == '_'
      invariant counter <= PrefixLength(s)
    {
      if s[counter] != '_' {
        break;
      }
      counter := counter + 1;
    }
  }

  method CutUnderscoresAtStart(s: string) returns (r: string)
    ensures r == WithoutLeadingUnderscores(s)
    ensures r == [] || r[0] != '_'
    ensures |r| <= |s| && r == s[|s| - |r|..]
  {
    var counter := CountUnderscoresAtStart(s);
    r := s[counter..];
  }

  method UnderscoresAtStart(s: string) returns (u: string)
    ensures u == LeadingUnderscores(s)
    ensures forall i :: 0 <= i < |u| ==> u[i] == '_'
    ensures u == s[..|u|]
  {
    var counter := CountUnderscoresAtStart(s);
    u := seq(counter, _ => '_');
  }
}
