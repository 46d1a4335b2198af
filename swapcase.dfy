/**
  `swap_case`: every character of the (optionally prefix-free) string is
  rewritten in place in an array of characters: `_` and `-` trade places,
  letters flip case, everything else stays.
*/
module SwapCase {
  import opened Text
  import opened Prefix

  /**
    The rewrite of one character, in the order the source tests it.  A
    character is `lower_case?` when downcasing leaves it alone, which holds
    for every character but an upper-case letter; upcasing such a character
    changes only lower-case letters.
  */
  function SwapChar(c: char): (d: char)
    ensures c == '_' ==> d == '-'
    ensures c == '-' ==> d == '_'
    ensures IsUpper(c) ==> IsLower(d) && UpChar(d) == c
    ensures IsLower(c) ==> IsUpper(d) && DownChar(d) == c
    ensures !IsLetter(c) && c != '_' && c != '-' ==> d == c
  {
    if c == '_' then '-'
    else if c == '-' then '_'
    else if IsLowerCase([c]) then UpperCase([c])[0]
    else if IsUpperCase([c]) then LowerCase([c])[0]
    else c
  }

  /** The characters of x, each swapped. */
  function SwapChars(x: string): (r: string)
    ensures |r| == |x|
  {
    seq(|x|, i requires 0 <= i < |x| => SwapChar(x[i]))
  }

  /** What `swap_case` returns: the kept prefix, if asked, and the swapped rest. */
  function Swapped(s: string, preserve: bool): string
  {
    if preserve then LeadingUnderscores(s) + SwapChars(WithoutLeadingUnderscores(s))
    else SwapChars(s)
  }

  method Swap(s: string, preserve: bool) returns (r: string)
    ensures r == Swapped(s, preserve)
    ensures |r| == |s|
    ensures var p := if preserve then PrefixLength(s) else 0;
      r[..p] == s[..p] && forall i :: p <= i < |s| ==> r[i] == SwapChar(s[i])
  {
    var x := s;
    if preserve {
      x := CutUnderscoresAtStart(s);
    }
    var sp := new char[|x|](i requires 0 <= i < |x| => x[i]);
    var i := 0;
    while i < sp.Length
      invariant 0 <= i <= sp.Length == |x|
      invariant forall k :: 0 <= k < i ==> sp[k] == SwapChar(x[k])
      invariant forall k :: i <= k < sp.Length ==> sp[k] == x[k]
    {
      var c := sp[i];
      if c == '_' {
        sp[i] := '-';
      } else if c == '-' {
        sp[i] := '_';
      } else if IsLowerCase([c]) {
        sp[i] := UpperCase([c])[0];
      } else if IsUpperCase([c]) {
        sp[i] := LowerCase([c])[0];
      }
      i := i + 1;
    }
    r := sp[..];
    assert r == SwapChars(x);
    if preserve {
      var u := UnderscoresAtStart(s);
      r := u + r;
    }
    SwappedPositions(s, preserve);
  }

  /** Position by position, the swap leaves the kept prefix alone and swaps every other character. */
  lemma SwappedPositions(s: string, preserve: bool)
    ensures |Swapped(s, preserve)| == |s|
    ensures var p := if preserve then PrefixLength(s) else 0; var r := Swapped(s, preserve);
      r[..p] == s[..p] && forall i :: p <= i < |s| ==> r[i] == SwapChar(s[i])
  {
    if preserve {
      assert LeadingUnderscores(s) + WithoutLeadingUnderscores(s) == s;
      KeptThenSwapped(LeadingUnderscores(s), WithoutLeadingUnderscores(s), s);
    }
  }

  lemma KeptThenSwapped(u: string, w: string, s: string)
    requires s == u + w
    ensures var r := u + SwapChars(w);
      |r| == |s| && r[..|u|] == s[..|u|] && forall i :: |u| <= i < |s| ==> r[i] == SwapChar(s[i])
  {
    var r := u + SwapChars(w);
    assert r[..|u|] == u;
    forall i | |u| <= i < |s| ensures r[i] == SwapChar(s[i]) {
      assert s[i] == w[i - |u|];
    }
  }

  lemma SwapCharTwice(c: char)
    ensures SwapChar(SwapChar(c)) == c
  {
  }

  /** Without the prefix kept, swapping twice gives the string back. */
  lemma {:induction false} SwapInvolution(s: string)
    ensures Swapped(Swapped(s, false), false) == s
  {
    forall i | 0 <= i < |s| ensures SwapChars(SwapChars(s))[i] == s[i] {
      SwapCharTwice(s[i]);
    }
  }

  /** With the prefix kept, swapping twice gives the string back when its rest does not start with `-`. */
  lemma SwapInvolutionPreserved(s: string)
    requires WithoutLeadingUnderscores(s) == [] || WithoutLeadingUnderscores(s)[0] != '-'
    ensures Swapped(Swapped(s, true), true) == s
  {
    var u := LeadingUnderscores(s);
    var w := WithoutLeadingUnderscores(s);
    var sw := SwapChars(w);
    assert sw == [] || sw[0] != '_';
    PrefixOfConcat(u, sw);
    SwapInvolution(w);
  }

  /** A rest starting with `-` turns into more prefix: `_-a` swaps to `__A`, which swaps to `__a`. */
  lemma SwapGrowsPrefix()
    ensures Swapped("_-a", true) == "__A"
    ensures Swapped("__A", true) == "__a"
  {
    PrefixOfConcat("_", "-a");
    assert "_-a" == "_" + "-a";
    PrefixOfConcat("__", "A");
    assert "__A" == "__" + "A";
  }

  /** `EXAMPLE-FIVE` swaps to `example_five`. */
  lemma SwapExample()
    ensures Swapped("EXAMPLE-FIVE", false) == "example_five"
  {
    var x := "EXAMPLE-FIVE";
    assert forall i :: 0 <= i < |x| ==> SwapChars(x)[i] == "example_five"[i];
  }

  /** With the prefix kept, the swap of a body is put after the body's leading underscores unchanged. */
  lemma SwapKeepsPrefix(u: string, body: string, r: string)
    requires forall i :: 0 <= i < |u| ==> u[i] == '_'
    requires body == [] || body[0] != '_'
    requires Swapped(body, false) == r
    ensures Swapped(u + body, true) == u + r
  {
    PrefixOfConcat(u, body);
  }
}
