/**
 The string primitives the source leans on: JavaScript's white-space class
 (shared by `String.prototype.trim` and the regular-expression class `\s`),
 the word class `\w`, ASCII case mapping, `trim`, `includes` and `split(" ")`.
 */
module Text {

  /** White space and line terminators as `trim` and `\s` understand them. */
  predicate IsSpace(c: char) {
    || c == ' ' || c == '\t' || c == '\n' || c == '\r' || c == '\U{000B}' || c == '\U{000C}'
    || c == '\U{00A0}' || c == '\U{1680}' || ('\U{2000}' <= c <= '\U{200A}')
    || c == '\U{2028}' || c == '\U{2029}' || c == '\U{202F}' || c == '\U{205F}'
    || c == '\U{3000}' || c == '\U{FEFF}'
  }

  /** The regular-expression class `\w` (no `u` flag): ASCII letters, digits and `_`. */
  predicate IsWordChar(c: char) {
    ('a' <= c <= 'z') || ('A' <= c <= 'Z') || ('0' <= c <= '9') || c == '_'
  }

  predicate IsUpper(c: char) { 'A' <= c <= 'Z' }

  predicate IsLower(c: char) { 'a' <= c <= 'z' }

  function LowerChar(c: char): (d: char)
    ensures !IsUpper(d)
    ensures !IsUpper(c) ==> d == c
    ensures IsUpper(c) ==> IsLower(d) && d as int - 'a' as int == c as int - 'A' as int
  {
    if IsUpper(c) then (c as int - 'A' as int + 'a' as int) as char else c
  }

  function UpperChar(c: char): (d: char)
    ensures !IsLower(d)
    ensures !IsLower(c) ==> d == c
    ensures IsLower(c) ==> IsUpper(d) && d as int - 'A' as int == c as int - 'a' as int
  {
    if IsLower(c) then (c as int - 'a' as int + 'A' as int) as char else c
  }

  /** `toLowerCase`, ASCII letters only. */
  function Lower(s: string): (r: string)
    ensures |r| == |s|
    ensures forall i :: 0 <= i < |s| ==> r[i] == LowerChar(s[i])
  {
    if s == [] then [] else [LowerChar(s[0])] + Lower(s[1..])
  }

  /** `toUpperCase`, ASCII letters only. */
  function Upper(s: string): (r: string)
    ensures |r| == |s|
    ensures forall i :: 0 <= i < |s| ==> r[i] == UpperChar(s[i])
  {
    if s == [] then [] else [UpperChar(s[0])] + Upper(s[1..])
  }

  predicate AllSpace(s: string) {
    forall i :: 0 <= i < |s| ==> IsSpace(s[i])
  }

  function TrimStart(s: string): (r: string)
    ensures |r| <= |s| && r == s[|s| - |r|..]
    ensures AllSpace(s[..|s| - |r|])
    ensures r == [] || !IsSpace(r[0])
  {
    if s != [] && IsSpace(s[0]) then
      var r := TrimStart(s[1..]);
      assert AllSpace(s[..|s| - |r|]) by {
        var n := |s| - |r|;
        assert AllSpace(s[1..][..n - 1]);
        forall k | 0 <= k < n ensures IsSpace(s[..n][k]) {
          if k > 0 {
            assert s[..n][k] == s[1..][..n - 1][k - 1];
          }
        }
      }
      r
    else s
  }

  function TrimEnd(s: string): (r: string)
    ensures |r| <= |s| && r == s[..|r|]
    ensures AllSpace(s[|r|..])
    ensures r == [] || !IsSpace(r[|r| - 1])
  {
    if s != [] && IsSpace(s[|s| - 1]) then
      var init := s[..|s| - 1];
      var r := TrimEnd(init);
      assert s[|r|..] == init[|r|..] + [s[|s| - 1]];
      r
    else s
  }

  /** Neither the first nor the last character is white space. */
  predicate NoEdgeSpace(s: string) {
    s == [] || (!IsSpace(s[0]) && !IsSpace(s[|s| - 1]))
  }

  /** `r` is the infix of `s` at `i`, and everything around it is white space. */
  ghost predicate InfixBetweenSpace(s: string, r: string, i: int) {
    && 0 <= i <= |s| - |r|
    && s[i..i + |r|] == r
    && AllSpace(s[..i])
    && AllSpace(s[i + |r|..])
  }

  /**
   `String.prototype.trim`: the result is the infix of `s` between its leading and
   trailing white space, and it neither starts nor ends with white space.
   */
  function Trim(s: string): (r: string)
    ensures exists i :: InfixBetweenSpace(s, r, i)
    ensures NoEdgeSpace(r)
    ensures r == [] <==> AllSpace(s)
  {
    TrimParts(s);
    TrimEmptyIffSpace(s);
    TrimEnd(TrimStart(s))
  }

  lemma TrimParts(s: string)
    ensures InfixBetweenSpace(s, TrimEnd(TrimStart(s)), |s| - |TrimStart(s)|)
  {
    InfixOfParts(s, TrimStart(s), TrimEnd(TrimStart(s)));
  }

  /**
   A prefix `r` of a suffix `a` of `s`, with only white space before `a` in `s`
   and after `r` in `a`, is the infix of `s` between white space.
   */
  lemma InfixOfParts(s: string, a: string, r: string)
    requires |a| <= |s| && a == s[|s| - |a|..] && AllSpace(s[..|s| - |a|])
    requires |r| <= |a| && r == a[..|r|] && AllSpace(a[|r|..])
    ensures InfixBetweenSpace(s, r, |s| - |a|)
  {
    var i := |s| - |a|;
    assert s[i..i + |r|] == r;
    assert s[i + |r|..] == a[|r|..];
  }

  lemma TrimEmptyIffSpace(s: string)
    ensures TrimEnd(TrimStart(s)) == [] <==> AllSpace(s)
  {
    var a := TrimStart(s);
    var i := |s| - |a|;
    assert a == s[i..];
    if TrimEnd(a) == [] {
      assert AllSpace(a[0..]);
      forall k | 0 <= k < |s| ensures IsSpace(s[k]) {
        if k < i {
          assert s[k] == s[..i][k];
        } else {
          assert s[k] == a[k - i];
        }
      }
    }
  }

  /** Trimming a trimmed string changes nothing. */
  lemma TrimIdempotent(s: string)
    ensures Trim(Trim(s)) == Trim(s)
  {
    var t := Trim(s);
    assert TrimStart(t) == t;
  }

  /** `p` occurs in `s` starting at position `i`. */
  ghost predicate OccursAt(s: string, p: string, i: int) {
    0 <= i <= |s| - |p| && s[i..i + |p|] == p
  }

  /** `s.includes(p)`: `p` occurs somewhere in `s`. */
  function Contains(s: string, p: string): (b: bool)
    ensures b <==> exists i :: OccursAt(s, p, i)
    decreases |s|
  {
    if |p| > |s| then false
    else if s[..|p|] == p then
      assert OccursAt(s, p, 0);
      true
    else
      var b := Contains(s[1..], p);
      assert forall i :: 1 <= i && OccursAt(s, p, i) ==> OccursAt(s[1..], p, i - 1);
      assert forall i :: OccursAt(s[1..], p, i) ==> OccursAt(s, p, i + 1);
      b
  }

  /** `s.split(" ")`: the pieces between single spaces, empty pieces included. */
  function SplitSpaces(s: string): (words: seq<string>)
    ensures |words| >= 1
    ensures forall w :: w in words ==> ' ' !in w
  {
    if s == [] then [""]
    else
      var rest := SplitSpaces(s[1..]);
      if s[0] == ' ' then [""] + rest else [[s[0]] + rest[0]] + rest[1..]
  }

  /** Joins `words` with one space between consecutive pieces (`join(" ")`). */
  function JoinSpaces(words: seq<string>): string
    requires |words| >= 1
  {
    if |words| == 1 then words[0] else words[0] + " " + JoinSpaces(words[1..])
  }

  /** Splitting on spaces loses nothing: joining the pieces back gives the input. */
  lemma {:induction false} JoinSplit(s: string)
    ensures JoinSpaces(SplitSpaces(s)) == s
  {
    if s != [] {
      var rest := SplitSpaces(s[1..]);
      assert JoinSpaces(rest) == s[1..] by { JoinSplit(s[1..]); }
      if s[0] == ' ' {
        assert JoinSpaces(SplitSpaces(s)) == " " + JoinSpaces(rest) by {
          assert SplitSpaces(s) == [""] + rest;
          assert ([""] + rest)[1..] == rest;
        }
        assert s == " " + s[1..];
      } else if |rest| == 1 {
        assert JoinSpaces(SplitSpaces(s)) == [s[0]] + rest[0] by {
          assert SplitSpaces(s) == [[s[0]] + rest[0]];
        }
        assert s == [s[0]] + s[1..];
      } else {
        var tail := JoinSpaces(rest[1..]);
        assert JoinSpaces(SplitSpaces(s)) == ([s[0]] + rest[0]) + " " + tail by {
          var words := SplitSpaces(s);
          assert words == [[s[0]] + rest[0]] + rest[1..];
          assert words[1..] == rest[1..];
        }
        assert JoinSpaces(rest) == rest[0] + " " + tail;
        assert s == [s[0]] + (rest[0] + " " + tail);
      }
    }
  }
}
