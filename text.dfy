/**
  The string primitives the library leans on, restricted to ASCII:
  the POSIX bracket classes [[:upper:]], [[:lower:]] and 0-9, Ruby's
  String#upcase / #downcase, #gsub with a literal pattern, #include?,
  #split with a literal separator, Array#join and Array#reject(&:empty?).
*/
module Text {

  predicate IsUpper(c: char) { 'A' <= c <= 'Z' }
  predicate IsLower(c: char) { 'a' <= c <= 'z' }
  predicate IsDigit(c: char) { '0' <= c <= '9' }
  predicate IsLetter(c: char) { IsUpper(c) || IsLower(c) }

  /** Ruby's upcase of one character (ASCII letters only). */
  function UpChar(c: char): char
  {
    if IsLower(c) then (c as int - 32) as char else c
  }

  /** Ruby's downcase of one character (ASCII letters only). */
  function DownChar(c: char): char
  {
    if IsUpper(c) then (c as int + 32) as char else c
  }

  /** String#upcase: lower-case letters become their upper-case letter, all else stays. */
  function UpperCase(s: string): (r: string)
    ensures |r| == |s|
    ensures forall i :: 0 <= i < |s| ==> !IsLower(r[i])
    ensures forall i :: 0 <= i < |s| ==> IsLower(s[i]) ==> IsUpper(r[i]) && DownChar(r[i]) == s[i]
    ensures forall i :: 0 <= i < |s| ==> !IsLower(s[i]) ==> r[i] == s[i]
  {
    seq(|s|, i requires 0 <= i < |s| => UpChar(s[i]))
  }

  /** String#downcase: upper-case letters become their lower-case letter, all else stays. */
  function LowerCase(s: string): (r: string)
    ensures |r| == |s|
    ensures forall i :: 0 <= i < |s| ==> !IsUpper(r[i])
    ensures forall i :: 0 <= i < |s| ==> IsUpper(s[i]) ==> IsLower(r[i]) && UpChar(r[i]) == s[i]
    ensures forall i :: 0 <= i < |s| ==> !IsUpper(s[i]) ==> r[i] == s[i]
  {
    seq(|s|, i requires 0 <= i < |s| => DownChar(s[i]))
  }

  /** `s == s.upcase`: holds exactly when no lower-case letter occurs in s. */
  function IsUpperCase(s: string): (b: bool)
    ensures b <==> forall i :: 0 <= i < |s| ==> !IsLower(s[i])
  {
    s == UpperCase(s)
  }

  /** `s == s.downcase`: holds exactly when no upper-case letter occurs in s. */
  function IsLowerCase(s: string): (b: bool)
    ensures b <==> forall i :: 0 <= i < |s| ==> !IsUpper(s[i])
  {
    s == LowerCase(s)
  }

  /** String#gsub with a one-character literal pattern. */
  function Gsub(s: string, c: char, rep: string): (r: string)
    ensures forall x :: x in r ==> (x in s && x != c) || x in rep
  {
    if s == [] then [] else (if s[0] == c then rep else [s[0]]) + Gsub(s[1..], c, rep)
  }

  /** String#include? */
  predicate Contains(s: string, sub: string)
  {
    exists i :: 0 <= i <= |s| && sub <= s[i..]
  }

  /**
    Splitting at every occurrence of sep, scanning left to right, keeping
    every piece (also empty ones, also trailing ones).
  */
  function SplitOn(s: string, sep: string): (parts: seq<string>)
    requires |sep| > 0
    ensures |parts| >= 1
    decreases |s|
  {
    if |s| < |sep| then [s]
    else if s[..|sep|] == sep then [""] + SplitOn(s[|sep|..], sep)
    else
      var rest := SplitOn(s[1..], sep);
      [[s[0]] + rest[0]] + rest[1..]
  }

  /** Ruby drops trailing empty pieces from the result of String#split. */
  function DropTrailingEmpty(parts: seq<string>): (r: seq<string>)
    ensures |r| <= |parts| && r == parts[..|r|]
    ensures r == [] || r[|r| - 1] != ""
    ensures forall i :: |r| <= i < |parts| ==> parts[i] == ""
  {
    if parts == [] || parts[|parts| - 1] != "" then parts
    else DropTrailingEmpty(parts[..|parts| - 1])
  }

  /** String#split with a literal separator. */
  function RubySplit(s: string, sep: string): seq<string>
    requires |sep| > 0
  {
    DropTrailingEmpty(SplitOn(s, sep))
  }

  /** Array#join. */
  function Join(parts: seq<string>, sep: string): string
  {
    if |parts| == 0 then ""
    else if |parts| == 1 then parts[0]
    else parts[0] + sep + Join(parts[1..], sep)
  }

  /** Array#reject(&:empty?). */
  function RejectEmpty(parts: seq<string>): (r: seq<string>)
    ensures forall p :: p in r ==> p in parts && p != ""
    ensures forall p :: p in parts && p != "" ==> p in r
  {
    if parts == [] then []
    else (if parts[0] == "" then [] else [parts[0]]) + RejectEmpty(parts[1..])
  }

  // ---------------------------------------------------------------------------
  // Lemmas about splitting and joining
  // ---------------------------------------------------------------------------

  /** Joining the pieces of a split with the same separator gives back the string. */
  lemma {:induction false} JoinSplitOn(s: string, sep: string)
    requires |sep| > 0
    ensures Join(SplitOn(s, sep), sep) == s
    decreases |s|
  {
    if |s| < |sep| {
    } else if s[..|sep|] == sep {
      var rest := SplitOn(s[|sep|..], sep);
      JoinSplitOn(s[|sep|..], sep);
      assert SplitOn(s, sep) == [""] + rest;
      assert ([""] + rest)[1..] == rest;
      assert Join(SplitOn(s, sep), sep) == "" + sep + Join(rest, sep);
      assert s == s[..|sep|] + s[|sep|..];
    } else {
      var rest := SplitOn(s[1..], sep);
      JoinSplitOn(s[1..], sep);
      var parts := [[s[0]] + rest[0]] + rest[1..];
      assert SplitOn(s, sep) == parts;
      if |rest| == 1 {
        assert Join(parts, sep) == [s[0]] + rest[0];
      } else {
        assert parts[1..] == rest[1..];
        assert Join(rest, sep) == rest[0] + sep + Join(rest[1..], sep);
        assert Join(parts, sep) == [s[0]] + rest[0] + sep + Join(rest[1..], sep);
      }
      assert s == [s[0]] + s[1..];
    }
  }

  /** Splitting at a one-character separator distributes over an occurrence of it. */
  lemma {:induction false} SplitOnConcat(a: string, c: char, b: string)
    ensures SplitOn(a + [c] + b, [c]) == SplitOn(a, [c]) + SplitOn(b, [c])
    decreases |a|
  {
    if a == [] {
      var s := a + [c] + b;
      assert s[..1] == [c];
      assert s[1..] == b;
    } else {
      SplitOnConcat(a[1..], c, b);
      assert a + [c] + b == [a[0]] + (a[1..] + [c] + b);
      assert a == [a[0]] + a[1..];
      SplitOnConsStep(a[0], a[1..] + [c] + b, a[1..], c, SplitOn(b, [c]));
    }
  }

  /** Putting the same character in front of two strings keeps a common tail of their splits. */
  lemma SplitOnConsStep(x: char, u: string, t: string, c: char, tail: seq<string>)
    requires SplitOn(u, [c]) == SplitOn(t, [c]) + tail
    ensures SplitOn([x] + u, [c]) == SplitOn([x] + t, [c]) + tail
  {
    SplitOnCons(x, u, c);
    SplitOnCons(x, t, c);
    ConsOfConcat(x, c, SplitOn(t, [c]), tail);
  }

  /** One step of the split on a one-character separator. */
  lemma SplitOnCons(x: char, t: string, c: char)
    ensures SplitOn([x] + t, [c]) ==
      if x == c then [""] + SplitOn(t, [c])
      else [[x] + SplitOn(t, [c])[0]] + SplitOn(t, [c])[1..]
  {
    var s := [x] + t;
    assert s[..1] == [x];
    assert s[1..] == t;
  }

  lemma ConsOfConcat(x: char, c: char, u: seq<string>, v: seq<string>)
    requires u != []
    ensures (if x == c then [""] + (u + v) else [[x] + (u + v)[0]] + (u + v)[1..]) ==
      (if x == c then [""] + u else [[x] + u[0]] + u[1..]) + v
  {
    if x != c {
      assert (u + v)[1..] == u[1..] + v;
    }
  }

  /** A string that never starts the separator splits into itself. */
  lemma {:induction false} SplitOnNoSep(w: string, sep: string)
    requires |sep| > 0 && sep[0] !in w
    ensures SplitOn(w, sep) == [w]
    decreases |w|
  {
    if |w| >= |sep| {
      assert w[0] in w;
      assert w[..|sep|][0] == w[0];
      SplitOnNoSep(w[1..], sep);
      assert w == [w[0]] + w[1..];
    }
  }

  /** A separator-free piece followed by the separator splits off as the first piece. */
  lemma {:induction false} SplitOnHead(p: string, sep: string, rest: string)
    requires |sep| > 0 && sep[0] !in p
    ensures SplitOn(p + sep + rest, sep) == [p] + SplitOn(rest, sep)
    decreases |p|
  {
    var s := p + sep + rest;
    if p == [] {
      assert s[..|sep|] == sep;
      assert s[|sep|..] == rest;
    } else {
      assert p[0] in p;
      assert s[..|sep|][0] == p[0];
      assert s[1..] == p[1..] + sep + rest;
      SplitOnHead(p[1..], sep, rest);
      assert p == [p[0]] + p[1..];
    }
  }

  /** Every character of a piece occurs in the split string. */
  lemma {:induction false} SplitOnChars(s: string, sep: string)
    requires |sep| > 0
    ensures forall p, x :: p in SplitOn(s, sep) && x in p ==> x in s
    decreases |s|
  {
    if |s| < |sep| {
    } else if s[..|sep|] == sep {
      SplitOnChars(s[|sep|..], sep);
      assert forall x :: x in s[|sep|..] ==> x in s;
    } else {
      SplitOnChars(s[1..], sep);
      assert forall x :: x in s[1..] ==> x in s;
    }
  }

  /** Splitting a join of separator-free pieces gives the pieces back. */
  lemma {:induction false} SplitOnJoin(parts: seq<string>, sep: string)
    requires |sep| > 0 && |parts| >= 1
    requires forall i :: 0 <= i < |parts| ==> sep[0] !in parts[i]
    ensures SplitOn(Join(parts, sep), sep) == parts
    decreases |parts|
  {
    if |parts| == 1 {
      SplitOnNoSep(parts[0], sep);
    } else {
      SplitOnJoin(parts[1..], sep);
      SplitOnHead(parts[0], sep, Join(parts[1..], sep));
      assert parts == [parts[0]] + parts[1..];
    }
  }

  /** A join of two or more pieces contains its separator. */
  lemma JoinContains(parts: seq<string>, sep: string)
    requires |parts| >= 2
    ensures Contains(Join(parts, sep), sep)
  {
    var j := Join(parts, sep);
    assert sep <= j[|parts[0]|..];
  }

  /** Every character of a join comes from a part or from the separator. */
  lemma {:induction false} JoinChars(parts: seq<string>, sep: string)
    ensures forall x :: x in Join(parts, sep) ==> x in sep || exists k :: 0 <= k < |parts| && x in parts[k]
    decreases |parts|
  {
    if |parts| > 1 {
      JoinChars(parts[1..], sep);
      forall x | x in Join(parts, sep)
        ensures x in sep || exists k :: 0 <= k < |parts| && x in parts[k]
      {
        if x !in parts[0] && x !in sep {
          assert x in Join(parts[1..], sep);
          var k :| 0 <= k < |parts[1..]| && x in parts[1..][k];
          assert x in parts[k + 1];
        }
      }
    }
  }

  /** Every piece of a split consists of characters of the string other than the separator. */
  lemma {:induction false} SplitOnPieces(s: string, c: char)
    ensures forall p, x :: p in SplitOn(s, [c]) && x in p ==> x in s && x != c
    decreases |s|
  {
    if |s| >= 1 {
      SplitOnPieces(s[1..], c);
      var rest := SplitOn(s[1..], [c]);
      if s[..1] == [c] {
        assert SplitOn(s, [c]) == [""] + SplitOn(s[1..], [c]);
      } else {
        assert s[0] != c;
        assert rest[0] in rest;
        forall p, x | p in SplitOn(s, [c]) && x in p
          ensures x in s && x != c
        {
          if p == [s[0]] + rest[0] {
            if x != s[0] {
              assert x in rest[0];
            }
          } else {
            assert p in rest;
          }
        }
      }
    }
  }

  lemma {:induction false} RejectEmptyConcat(xs: seq<string>, ys: seq<string>)
    ensures RejectEmpty(xs + ys) == RejectEmpty(xs) + RejectEmpty(ys)
    decreases |xs|
  {
    if xs != [] {
      assert (xs + ys)[0] == xs[0];
      assert (xs + ys)[1..] == xs[1..] + ys;
      RejectEmptyConcat(xs[1..], ys);
    } else {
      assert xs + ys == ys;
    }
  }

  /** Ruby's dropping of trailing empty pieces makes no difference once empties are rejected. */
  lemma {:induction false} RejectEmptyDropTrailing(parts: seq<string>)
    ensures RejectEmpty(DropTrailingEmpty(parts)) == RejectEmpty(parts)
    decreases |parts|
  {
    if parts != [] && parts[|parts| - 1] == "" {
      var init := parts[..|parts| - 1];
      RejectEmptyDropTrailing(init);
      assert parts == init + [""];
      RejectEmptyConcat(init, [""]);
    }
  }

  // ---------------------------------------------------------------------------
  // Lemmas about case mapping and gsub on concatenations
  // ---------------------------------------------------------------------------

  lemma LowerCaseConcat(a: string, b: string)
    ensures LowerCase(a + b) == LowerCase(a) + LowerCase(b)
  {
    assert forall i :: 0 <= i < |a + b| ==> LowerCase(a + b)[i] == (LowerCase(a) + LowerCase(b))[i];
  }

  lemma UpperCaseConcat(a: string, b: string)
    ensures UpperCase(a + b) == UpperCase(a) + UpperCase(b)
  {
    assert forall i :: 0 <= i < |a + b| ==> UpperCase(a + b)[i] == (UpperCase(a) + UpperCase(b))[i];
  }

  lemma {:induction false} GsubConcat(a: string, b: string, c: char, rep: string)
    ensures Gsub(a + b, c, rep) == Gsub(a, c, rep) + Gsub(b, c, rep)
    decreases |a|
  {
    if a != [] {
      assert (a + b)[0] == a[0];
      assert (a + b)[1..] == a[1..] + b;
      GsubConcat(a[1..], b, c, rep);
    } else {
      assert a + b == b;
    }
  }

  lemma {:induction false} GsubAbsent(s: string, c: char, rep: string)
    requires c !in s
    ensures Gsub(s, c, rep) == s
    decreases |s|
  {
    if s != [] {
      GsubAbsent(s[1..], c, rep);
      assert s == [s[0]] + s[1..];
    }
  }

  lemma UpperCaseJoin(parts: seq<string>, sep: string)
    requires forall i :: 0 <= i < |sep| ==> !IsLower(sep[i])
    ensures UpperCase(Join(parts, sep)) == Join(MapUpper(parts), sep)
    decreases |parts|
  {
    if |parts| > 1 {
      UpperCaseJoin(parts[1..], sep);
      UpperCaseConcat(parts[0] + sep, Join(parts[1..], sep));
      UpperCaseConcat(parts[0], sep);
      assert UpperCase(sep) == sep;
      assert MapUpper(parts)[1..] == MapUpper(parts[1..]);
    }
  }

  /** Upcases every element: `a.map { |e| upper_case e }`. */
  function MapUpper(parts: seq<string>): seq<string>
  {
    seq(|parts|, i requires 0 <= i < |parts| => UpperCase(parts[i]))
  }

  /** Ruby's split of a join gives the pieces back, when they are non-empty and free of the separator. */
  lemma RubySplitJoin(parts: seq<string>, sep: string)
    requires |sep| > 0
    requires forall i :: 0 <= i < |parts| ==> parts[i] != [] && sep[0] !in parts[i]
    ensures RubySplit(Join(parts, sep), sep) == parts
  {
    if parts == [] {
      assert SplitOn("", sep) == [""];
    } else {
      SplitOnJoin(parts, sep);
    }
  }

  /** A join starts with the first piece. */
  lemma JoinHead(parts: seq<string>, sep: string)
    requires |parts| >= 1 && parts[0] != []
    ensures |Join(parts, sep)| >= 1 && Join(parts, sep)[0] == parts[0][0]
  {
  }

  /** A join ends with the last piece. */
  lemma {:induction false} JoinLast(parts: seq<string>, sep: string)
    requires |parts| >= 1 && parts[|parts| - 1] != []
    ensures var j := Join(parts, sep); var w := parts[|parts| - 1];
      |j| >= 1 && j[|j| - 1] == w[|w| - 1]
    decreases |parts|
  {
    if |parts| > 1 {
      JoinLast(parts[1..], sep);
      assert parts[1..][|parts| - 2] == parts[|parts| - 1];
    }
  }

  /** Joining with no separator puts the first piece in front of the join of the rest. */
  lemma JoinUnseparated(parts: seq<string>)
    requires |parts| >= 1
    ensures Join(parts, "") == parts[0] + Join(parts[1..], "")
  {
    if |parts| == 1 {
      assert parts[0] + "" == parts[0];
    }
  }

  /** Downcases every element. */
  function MapLower(parts: seq<string>): seq<string>
  {
    seq(|parts|, i requires 0 <= i < |parts| => LowerCase(parts[i]))
  }

  lemma LowerCaseJoin(parts: seq<string>, sep: string)
    requires forall i :: 0 <= i < |sep| ==> !IsUpper(sep[i])
    ensures LowerCase(Join(parts, sep)) == Join(MapLower(parts), sep)
    decreases |parts|
  {
    if |parts| > 1 {
      LowerCaseJoin(parts[1..], sep);
      LowerCaseConcat(parts[0] + sep, Join(parts[1..], sep));
      LowerCaseConcat(parts[0], sep);
      assert LowerCase(sep) == sep;
      assert MapLower(parts)[1..] == MapLower(parts[1..]);
    }
  }

  /** Replacing a separator that no piece contains rewrites the join. */
  lemma {:induction false} GsubJoin(parts: seq<string>, c: char, rep: string)
    requires forall i :: 0 <= i < |parts| ==> c !in parts[i]
    ensures Gsub(Join(parts, [c]), c, rep) == Join(parts, rep)
    decreases |parts|
  {
    if |parts| == 1 {
      GsubAbsent(parts[0], c, rep);
    } else if |parts| > 1 {
      GsubJoin(parts[1..], c, rep);
      GsubAbsent(parts[0], c, rep);
      GsubConcat(parts[0] + [c], Join(parts[1..], [c]), c, rep);
      GsubConcat(parts[0], [c], c, rep);
      assert Gsub([c], c, rep) == rep + Gsub([], c, rep);
    }
  }
}
