/**
 The string helpers of the shared utility file: `slugify` and its chain of
 regular-expression replacements, `truncate`, `capitalize`, `getInitials`, and
 the two case-insensitive priority mappings. Case mapping is ASCII only.
 */
module Utils {
  import opened Text
  import opened Seqs

  /** A character a slug may contain: lower-case ASCII letter, digit, `_` or `-`. */
  predicate IsSlugChar(c: char) {
    IsLower(c) || ('0' <= c <= '9') || c == '_' || c == '-'
  }

  predicate SlugChars(s: string) {
    forall i :: 0 <= i < |s| ==> IsSlugChar(s[i])
  }

  predicate NoUpper(s: string) {
    forall i :: 0 <= i < |s| ==> !IsUpper(s[i])
  }

  predicate NoSpace(s: string) {
    forall i :: 0 <= i < |s| ==> !IsSpace(s[i])
  }

  predicate NoDoubleDash(s: string) {
    forall i :: 0 <= i < |s| - 1 ==> !(s[i] == '-' && s[i + 1] == '-')
  }

  /** What `slugify` promises of its output. */
  predicate IsSlug(s: string) {
    && SlugChars(s)
    && NoDoubleDash(s)
    && (s != [] ==> s[0] != '-' && s[|s| - 1] != '-')
  }

  /** `-`, the character the replacements put in and strip. */
  predicate IsDash(c: char) { c == '-' }

  /** The regular-expression class `[\w-]`. */
  predicate IsWordOrDash(c: char) { IsWordChar(c) || c == '-' }

  /** The characters that survive a run replacement on `p` untouched: neither in `p` nor a dash. */
  function KeptBy(p: char -> bool): char -> bool {
    (c: char) => !p(c) && c != '-'
  }

  /** The leading characters satisfying `p` are removed (`.replace(/^P+/, "")`). */
  function DropWhile(s: string, p: char -> bool): (r: string)
    ensures |r| <= |s| && r == s[|s| - |r|..]
    ensures forall i :: 0 <= i < |s| - |r| ==> p(s[i])
    ensures r == [] || !p(r[0])
  {
    if s != [] && p(s[0]) then
      var r := DropWhile(s[1..], p);
      assert forall i :: 1 <= i < |s| - |r| ==> s[i] == s[1..][i - 1];
      r
    else s
  }

  /** The trailing characters satisfying `p` are removed (`.replace(/P+$/, "")`). */
  function DropWhileEnd(s: string, p: char -> bool): (r: string)
    ensures |r| <= |s| && r == s[..|r|]
    ensures forall i :: |r| <= i < |s| ==> p(s[i])
    ensures r == [] || !p(r[|r| - 1])
  {
    if s != [] && p(s[|s| - 1]) then
      var r := DropWhileEnd(s[..|s| - 1], p);
      assert forall i :: |r| <= i < |s| - 1 ==> s[i] == s[..|s| - 1][i];
      r
    else s
  }

  /** Stripping leading characters that `q` never picks leaves what `q` picks unchanged. */
  lemma DropWhileKeeps(s: string, p: char -> bool, q: char -> bool)
    requires forall c :: q(c) ==> !p(c)
    ensures Filter(DropWhile(s, p), q) == Filter(s, q)
  {
    var r := DropWhile(s, p);
    var front := s[..|s| - |r|];
    assert s == front + r;
    forall i | 0 <= i < |front| ensures !q(front[i]) {
      assert front[i] == s[i] && p(s[i]);
    }
    FilterNone(front, q);
    FilterAppend(front, r, q);
  }

  /** Stripping trailing characters that `q` never picks leaves what `q` picks unchanged. */
  lemma DropWhileEndKeeps(s: string, p: char -> bool, q: char -> bool)
    requires forall c :: q(c) ==> !p(c)
    ensures Filter(DropWhileEnd(s, p), q) == Filter(s, q)
  {
    var r := DropWhileEnd(s, p);
    var back := s[|r|..];
    assert s == r + back;
    forall i | 0 <= i < |back| ensures !q(back[i]) {
      assert back[i] == s[|r| + i] && p(s[|r| + i]);
    }
    FilterNone(back, q);
    FilterAppend(r, back, q);
    assert Filter(r, q) + [] == Filter(r, q);
  }

  /**
   The scan behind `.replace(/P+/g, "-")`: a character of `p` that starts a run
   becomes a dash, the rest of the run nothing, every other character stays.
   `inRun` says whether the character before `s` was in a run.
   */
  function CollapseFrom(s: string, p: char -> bool, inRun: bool): (r: string)
    ensures (forall i :: 0 <= i < |s| ==> !p(s[i])) ==> r == s
    ensures s != [] && !inRun ==> r != [] && r[0] == (if p(s[0]) then '-' else s[0])
  {
    if s == [] then [] else RunHead(s[0], p, inRun) + CollapseFrom(s[1..], p, p(s[0]))
  }

  /** What the scan emits for one character `c`. */
  function RunHead(c: char, p: char -> bool, inRun: bool): string {
    if !p(c) then [c] else if inRun then [] else "-"
  }

  /** One step of the scan, as an equation. */
  lemma CollapseFromCons(s: string, p: char -> bool, inRun: bool)
    requires s != []
    ensures CollapseFrom(s, p, inRun) == RunHead(s[0], p, inRun) + CollapseFrom(s[1..], p, p(s[0]))
  {
  }

  /**
   What the scan can produce: dashes and characters of `s` outside `p`, never a
   dash followed by a character of `p`, and nothing of `p` first inside a run.
   */
  lemma {:induction false} CollapseFromShape(s: string, p: char -> bool, inRun: bool)
    ensures var r := CollapseFrom(s, p, inRun);
            && (inRun ==> r == [] || !p(r[0]))
            && (forall c :: c in r ==> c == '-' || (c in s && !p(c)))
            && (forall i, j :: 0 <= i && j == i + 1 < |r| ==> !(r[i] == '-' && p(r[j])))
  {
    if s != [] {
      CollapseFromShape(s[1..], p, p(s[0]));
      var rest := CollapseFrom(s[1..], p, p(s[0]));
      var r := CollapseFrom(s, p, inRun);
      assert forall c :: c in s[1..] ==> c in s;
      if p(s[0]) && inRun {
        assert r == rest;
      } else {
        assert r[1..] == rest;
      }
    }
  }

  /**
   Each maximal run of characters satisfying `p` becomes one dash, every other
   character stays where it is (`.replace(/P+/g, "-")`). The result never has a
   dash followed by a character of `p`.
   */
  function CollapseRuns(s: string, p: char -> bool): (r: string)
    ensures (forall i :: 0 <= i < |s| ==> !p(s[i])) ==> r == s
    ensures s != [] ==> r != [] && r[0] == (if p(s[0]) then '-' else s[0])
    ensures forall i :: 0 <= i < |r| ==> r[i] == '-' || (r[i] in s && !p(r[i]))
    ensures forall i, j :: 0 <= i && j == i + 1 < |r| ==> !(r[i] == '-' && p(r[j]))
  {
    CollapseFromShape(s, p, false);
    CollapseRunsShape(s, p);
    var r := CollapseFrom(s, p, false);
    assert forall i, j :: 0 <= i && j == i + 1 < |r| ==> !(r[i] == '-' && p(r[j]));
    r
  }

  lemma CollapseRunsShape(s: string, p: char -> bool)
    ensures var r := CollapseFrom(s, p, false);
            forall i :: 0 <= i < |r| ==> r[i] == '-' || (r[i] in s && !p(r[i]))
  {
    var r := CollapseFrom(s, p, false);
    CollapseFromShape(s, p, false);
    forall i | 0 <= i < |r| ensures r[i] == '-' || (r[i] in s && !p(r[i])) {
      assert r[i] in r;
    }
  }

  /** Inside a run, further characters of the run add nothing. */
  lemma {:induction false} CollapseFromRun(s: string, p: char -> bool)
    requires forall i :: 0 <= i < |s| ==> p(s[i])
    ensures CollapseFrom(s, p, true) == []
  {
    if s != [] {
      CollapseFromRun(s[1..], p);
    }
  }

  /** Where no run continues, whether one just ended makes no difference. */
  lemma CollapseFromFresh(s: string, p: char -> bool)
    requires s == [] || !p(s[0])
    ensures CollapseFrom(s, p, true) == CollapseFrom(s, p, false)
  {
  }

  /** The scan of a concatenation is the scan of each part, the second resumed where the first stopped. */
  lemma {:induction false} CollapseFromAppend(a: string, b: string, p: char -> bool, inRun: bool)
    ensures CollapseFrom(a + b, p, inRun) == CollapseFrom(a, p, inRun) + CollapseFrom(b, p, if a == [] then inRun else p(a[|a| - 1]))
  {
    if a == [] {
      assert a + b == b;
    } else {
      var h := RunHead(a[0], p, inRun);
      var x := CollapseFrom(a[1..], p, p(a[0]));
      var y := CollapseFrom(b, p, p(a[|a| - 1]));
      assert CollapseFrom(a[1..] + b, p, p(a[0])) == x + y by {
        assert a[1..] == [] || a[1..][|a[1..]| - 1] == a[|a| - 1];
        CollapseFromAppend(a[1..], b, p, p(a[0]));
      }
      assert CollapseFrom(a + b, p, inRun) == h + (x + y) by {
        assert (a + b)[0] == a[0] && (a + b)[1..] == a[1..] + b;
        CollapseFromCons(a + b, p, inRun);
      }
      assert CollapseFrom(a, p, inRun) == h + x by {
        CollapseFromCons(a, p, inRun);
      }
      Regroup(h, x, y);
    }
  }

  /** A non-empty run of `p` characters becomes a single dash. */
  lemma CollapseRunsOfRun(s: string, p: char -> bool)
    requires s != [] && forall i :: 0 <= i < |s| ==> p(s[i])
    ensures CollapseRuns(s, p) == "-"
  {
    CollapseFromRun(s[1..], p);
  }

  /**
   Replacing runs distributes over a concatenation that does not split a run:
   together with the two facts above this determines `CollapseRuns` on every string.
   */
  lemma CollapseRunsAppend(a: string, b: string, p: char -> bool)
    requires a == [] || b == [] || !p(a[|a| - 1]) || !p(b[0])
    ensures CollapseRuns(a + b, p) == CollapseRuns(a, p) + CollapseRuns(b, p)
  {
    CollapseFromAppend(a, b, p, false);
    if a != [] && p(a[|a| - 1]) {
      CollapseFromFresh(b, p);
    }
  }

  /** The characters a run replacement leaves alone keep their order and number. */
  lemma {:induction false} CollapseFromKeeps(s: string, p: char -> bool, inRun: bool, q: char -> bool)
    requires forall c :: q(c) ==> !p(c) && c != '-'
    ensures Filter(CollapseFrom(s, p, inRun), q) == Filter(s, q)
  {
    if s != [] {
      var rest := CollapseFrom(s[1..], p, p(s[0]));
      var head: string := if p(s[0]) then (if inRun then [] else "-") else [s[0]];
      var kept: string := if q(s[0]) then [s[0]] else [];
      assert Filter(CollapseFrom(s, p, inRun), q) == kept + Filter(rest, q) by {
        assert CollapseFrom(s, p, inRun) == head + rest;
        FilterAppend(head, rest, q);
        assert Filter(head, q) == kept;
      }
      CollapseFromKeeps(s[1..], p, p(s[0]), q);
      assert Filter(s, q) == kept + Filter(s[1..], q);
    }
  }

  /** The characters a run replacement leaves alone keep their order and number. */
  lemma CollapseRunsKeeps(s: string, p: char -> bool, q: char -> bool)
    requires forall c :: q(c) ==> !p(c) && c != '-'
    ensures Filter(CollapseRuns(s, p), q) == Filter(s, q)
  {
    CollapseFromKeeps(s, p, false, q);
  }

  /**
   `.replace(/\s+/g, "-")`: each run of white space becomes one dash, so no white
   space is left; the other characters keep their order.
   */
  function DashSpaces(s: string): (r: string)
    ensures NoSpace(r)
    ensures NoSpace(s) ==> r == s
    ensures s != [] && AllSpace(s) ==> r == "-"
    ensures Filter(r, KeptBy(IsSpace)) == Filter(s, KeptBy(IsSpace))
    ensures NoUpper(s) ==> NoUpper(r)
  {
    var r := CollapseRuns(s, IsSpace);
    assert NoSpace(r) && (NoUpper(s) ==> NoUpper(r)) by {
      forall i | 0 <= i < |r| ensures !IsSpace(r[i]) && (NoUpper(s) ==> !IsUpper(r[i])) {
        assert r[i] in r;
      }
    }
    assert s != [] && AllSpace(s) ==> r == "-" by {
      if s != [] && AllSpace(s) {
        CollapseRunsOfRun(s, IsSpace);
      }
    }
    assert Filter(r, KeptBy(IsSpace)) == Filter(s, KeptBy(IsSpace)) by {
      CollapseRunsKeeps(s, IsSpace, KeptBy(IsSpace));
    }
    r
  }

  /**
   `.replace(/[^\w-]+/g, "")`: the word characters and dashes stay, in order and
   as often as they occur; everything else goes.
   */
  function KeepWordAndDash(s: string): (r: string)
    ensures forall i :: 0 <= i < |r| ==> IsWordOrDash(r[i])
    ensures forall c :: IsWordOrDash(c) ==> multiset(r)[c] == multiset(s)[c]
    ensures IsSubsequence(r, s)
    ensures NoUpper(s) ==> SlugChars(r)
  {
    var r := Filter(s, IsWordOrDash);
    assert forall i :: 0 <= i < |r| ==> r[i] in r;
    r
  }

  /** Every infix of a string with slug characters and no double dash has both too. */
  lemma InfixKeepsSlugShape(s: string, i: int, j: int)
    requires 0 <= i <= j <= |s|
    ensures SlugChars(s) ==> SlugChars(s[i..j])
    ensures NoDoubleDash(s) ==> NoDoubleDash(s[i..j])
  {
    var t := s[i..j];
    assert forall k :: 0 <= k < |t| ==> t[k] == s[i + k];
  }

  /**
   `.replace(/--+/g, "-")`: each run of dashes becomes one dash; the other
   characters keep their order, and no double dash is left.
   */
  function CollapseDashes(s: string): (r: string)
    ensures NoDoubleDash(r)
    ensures Filter(r, KeptBy(IsDash)) == Filter(s, KeptBy(IsDash))
    ensures s != [] ==> r != [] && r[0] == s[0]
    ensures SlugChars(s) ==> SlugChars(r)
  {
    var r := CollapseRuns(s, IsDash);
    assert NoDoubleDash(r) by {
      forall i | 0 <= i < |r| - 1 ensures !(r[i] == '-' && r[i + 1] == '-') {
        assert !(r[i] == '-' && IsDash(r[i + 1]));
      }
    }
    assert SlugChars(s) ==> SlugChars(r) by {
      if SlugChars(s) {
        forall i | 0 <= i < |r| ensures IsSlugChar(r[i]) {
          assert r[i] in r;
          if r[i] != '-' {
            var k :| 0 <= k < |s| && s[k] == r[i];
          }
        }
      }
    }
    CollapseRunsKeeps(s, IsDash, KeptBy(IsDash));
    r
  }

  /** A string without double dashes, not continuing a run, is left as it is by the scan. */
  lemma {:induction false} CollapseFromFixpoint(s: string, inRun: bool)
    requires NoDoubleDash(s)
    requires inRun ==> s == [] || s[0] != '-'
    ensures CollapseFrom(s, IsDash, inRun) == s
  {
    if s != [] {
      InfixKeepsSlugShape(s, 1, |s|);
      if s[0] == '-' && |s| > 1 {
        assert s[1] != '-';
      }
      CollapseFromFixpoint(s[1..], s[0] == '-');
    }
  }

  /** A string without double dashes has nothing to collapse. */
  lemma CollapseDashesFixpoint(s: string)
    requires NoDoubleDash(s)
    ensures CollapseDashes(s) == s
  {
    CollapseFromFixpoint(s, false);
  }

  /** `.replace(/^-+/, "")`. */
  function TrimLeadingDashes(s: string): (r: string)
    ensures |r| <= |s| && r == s[|s| - |r|..]
    ensures forall i :: 0 <= i < |s| - |r| ==> s[i] == '-'
    ensures r == [] || r[0] != '-'
  {
    DropWhile(s, IsDash)
  }

  /** `.replace(/-+$/, "")`. */
  function TrimTrailingDashes(s: string): (r: string)
    ensures |r| <= |s| && r == s[..|r|]
    ensures forall i :: |r| <= i < |s| ==> s[i] == '-'
    ensures r == [] || r[|r| - 1] != '-'
  {
    DropWhileEnd(s, IsDash)
  }

  /** Stripping the edge dashes of a collapsed string of slug characters leaves a slug. */
  lemma StrippedIsSlug(collapsed: string)
    requires SlugChars(collapsed) && NoDoubleDash(collapsed)
    ensures IsSlug(TrimTrailingDashes(TrimLeadingDashes(collapsed)))
  {
    var lead := TrimLeadingDashes(collapsed);
    var r := TrimTrailingDashes(lead);
    assert SlugChars(lead) && NoDoubleDash(lead) by {
      InfixKeepsSlugShape(collapsed, |collapsed| - |lead|, |collapsed|);
    }
    assert SlugChars(r) && NoDoubleDash(r) by {
      InfixKeepsSlugShape(lead, 0, |r|);
    }
    assert r != [] ==> r[0] == lead[0];
  }

  /** Lower-casing neither makes nor unmakes a word character. */
  lemma LowerKeepsWordChars(text: string)
    ensures (forall i :: 0 <= i < |Lower(text)| ==> !IsWordChar(Lower(text)[i])) <==>
            (forall i :: 0 <= i < |text| ==> !IsWordChar(text[i]))
  {
    assert forall i :: 0 <= i < |text| ==> (IsWordChar(Lower(text)[i]) <==> IsWordChar(text[i]));
  }

  /** A non-empty slug starts with a word character. */
  lemma SlugStartsWithWordChar(r: string)
    requires IsSlug(r) && r != []
    ensures IsWordChar(r[0])
  {
  }

  /**
   `slugify`: lower-case, white-space runs to dashes, everything but word
   characters and dashes dropped, dash runs collapsed, edge dashes stripped.
   The result is a slug whose word characters are exactly those of the
   lower-cased text, in order; it is empty exactly when the text has none.
   */
  function Slugify(text: string): (r: string)
    ensures IsSlug(r)
    ensures Filter(r, IsWordChar) == Filter(Lower(text), IsWordChar)
    ensures r == [] <==> forall i :: 0 <= i < |text| ==> !IsWordChar(text[i])
  {
    var lower := Lower(text);
    var dashed := DashSpaces(lower);
    var kept := KeepWordAndDash(dashed);
    var collapsed := CollapseDashes(kept);
    var lead := TrimLeadingDashes(collapsed);
    var r := TrimTrailingDashes(lead);
    StrippedIsSlug(collapsed);
    SlugifyKeepsWords(lower, dashed, kept, collapsed, lead, r);
    SlugEmptyIffNoWords(r);
    LowerNoWords(text);
    r
  }

  /** Each step of `slugify` keeps the word characters, in order. */
  lemma SlugifyKeepsWords(lower: string, dashed: string, kept: string, collapsed: string, lead: string, r: string)
    requires dashed == DashSpaces(lower) && kept == KeepWordAndDash(dashed)
    requires collapsed == CollapseDashes(kept) && lead == TrimLeadingDashes(collapsed)
    requires r == TrimTrailingDashes(lead)
    ensures Filter(r, IsWordChar) == Filter(lower, IsWordChar)
  {
    DashSpacesKeepsWords(lower);
    KeepWordAndDashKeepsWords(dashed);
    CollapseDashesKeepsWords(kept);
    TrimDashesKeepsWords(collapsed);
  }

  lemma DashSpacesKeepsWords(s: string)
    ensures Filter(DashSpaces(s), IsWordChar) == Filter(s, IsWordChar)
  {
    CollapseRunsKeeps(s, IsSpace, IsWordChar);
  }

  lemma KeepWordAndDashKeepsWords(s: string)
    ensures Filter(KeepWordAndDash(s), IsWordChar) == Filter(s, IsWordChar)
  {
    FilterFilter(s, IsWordOrDash, IsWordChar);
  }

  lemma CollapseDashesKeepsWords(s: string)
    ensures Filter(CollapseDashes(s), IsWordChar) == Filter(s, IsWordChar)
  {
    CollapseRunsKeeps(s, IsDash, IsWordChar);
  }

  lemma TrimDashesKeepsWords(s: string)
    ensures Filter(TrimTrailingDashes(TrimLeadingDashes(s)), IsWordChar) == Filter(s, IsWordChar)
  {
    DropWhileKeeps(s, IsDash, IsWordChar);
    DropWhileEndKeeps(TrimLeadingDashes(s), IsDash, IsWordChar);
  }

  /** A slug is empty exactly when it has no word character. */
  lemma SlugEmptyIffNoWords(r: string)
    requires IsSlug(r)
    ensures r == [] <==> Filter(r, IsWordChar) == []
  {
    FilterEmptyIff(r, IsWordChar);
    if r != [] {
      SlugStartsWithWordChar(r);
    }
  }

  /** The lower-cased text has no word character exactly when the text has none. */
  lemma LowerNoWords(text: string)
    ensures Filter(Lower(text), IsWordChar) == [] <==> forall i :: 0 <= i < |text| ==> !IsWordChar(text[i])
  {
    LowerKeepsWordChars(text);
    FilterEmptyIff(Lower(text), IsWordChar);
  }

  /** A slug is left as it is. */
  lemma SlugFixpoint(s: string)
    requires IsSlug(s)
    ensures Slugify(s) == s
  {
    SlugHasNoUpper(s);
    SlugStepsFix(s);
  }

  /** A slug has no upper-case letter, so lower-casing leaves it alone. */
  lemma SlugHasNoUpper(s: string)
    requires IsSlug(s)
    ensures Lower(s) == s
  {
  }

  /** Every replacement step of `slugify` leaves a slug alone. */
  lemma SlugStepsFix(s: string)
    requires IsSlug(s)
    ensures DashSpaces(s) == s
    ensures KeepWordAndDash(s) == s
    ensures CollapseDashes(s) == s
    ensures TrimTrailingDashes(TrimLeadingDashes(s)) == s
  {
    assert NoSpace(s);
    FilterAll(s, IsWordOrDash);
    CollapseDashesFixpoint(s);
  }

  /** `slugify` is idempotent. */
  lemma SlugifyIdempotent(text: string)
    ensures Slugify(Slugify(text)) == Slugify(text)
  {
    SlugFixpoint(Slugify(text));
  }

  /**
   Where the dashes go: two slugs separated by any non-empty run of white space
   slugify to the two slugs joined by one dash.
   */
  lemma SlugifyJoin(a: string, w: string, b: string)
    requires IsSlug(a) && IsSlug(b) && a != [] && b != []
    requires w != [] && forall i :: 0 <= i < |w| ==> IsSpace(w[i])
    ensures Slugify(a + w + b) == a + "-" + b
  {
    var text := a + w + b;
    var joined := a + "-" + b;
    assert Lower(text) == text by {
      forall i | 0 <= i < |text| ensures !IsUpper(text[i]) {
        if i >= |a| + |w| {
          assert text[i] == b[i - |a| - |w|];
        } else if i < |a| {
          assert text[i] == a[i];
        }
      }
    }
    assert DashSpaces(text) == joined by {
      DashSpacesJoin(a, w, b);
    }
    JoinIsSlug(a, b);
    SlugStepsFix(joined);
  }

  /** The white-space step of `slugify` on two slugs around a run of white space. */
  lemma DashSpacesJoin(a: string, w: string, b: string)
    requires IsSlug(a) && IsSlug(b) && a != [] && b != []
    requires w != [] && forall i :: 0 <= i < |w| ==> IsSpace(w[i])
    ensures DashSpaces(a + w + b) == a + "-" + b
  {
    assert NoSpace(a) && NoSpace(b);
    CollapseRunsAround(a, w, b, IsSpace);
  }

  /** A run of `p` between two strings free of `p` becomes one dash between them. */
  lemma CollapseRunsAround(a: string, w: string, b: string, p: char -> bool)
    requires forall i :: 0 <= i < |a| ==> !p(a[i])
    requires forall i :: 0 <= i < |b| ==> !p(b[i])
    requires w != [] && forall i :: 0 <= i < |w| ==> p(w[i])
    ensures CollapseRuns(a + w + b, p) == a + "-" + b
  {
    assert CollapseRuns(w + b, p) == "-" + b by {
      CollapseRunsAppend(w, b, p);
      CollapseRunsOfRun(w, p);
    }
    assert CollapseRuns(a + (w + b), p) == a + ("-" + b) by {
      CollapseRunsAppend(a, w + b, p);
    }
    assert a + w + b == a + (w + b) && a + "-" + b == a + ("-" + b);
  }

  /** Two non-empty slugs joined by a dash form a slug. */
  lemma JoinIsSlug(a: string, b: string)
    requires IsSlug(a) && IsSlug(b) && a != [] && b != []
    ensures IsSlug(a + "-" + b)
  {
    var t := a + "-" + b;
    forall i | 0 <= i < |t| ensures IsSlugChar(t[i]) {
      if i > |a| {
        assert t[i] == b[i - |a| - 1];
      } else if i < |a| {
        assert t[i] == a[i];
      }
    }
    forall i | 0 <= i < |t| - 1 ensures !(t[i] == '-' && t[i + 1] == '-') {
      if i > |a| {
        assert t[i] == b[i - |a| - 1] && t[i + 1] == b[i - |a|];
      } else if i == |a| {
        assert t[i + 1] == b[0];
      } else if i == |a| - 1 {
        assert t[i] == a[|a| - 1];
      } else {
        assert t[i] == a[i] && t[i + 1] == a[i + 1];
      }
    }
    assert t[|t| - 1] == b[|b| - 1];
  }

  /**
   `truncate(text, length)`: the text itself when it is not longer than `length`;
   otherwise a prefix of it followed by "...", the prefix being `length` long when
   `length` is not negative (a negative `length` counts from the end, as `slice` does).
   */
  function Truncate(text: string, length: int): (r: string)
    ensures |text| <= length ==> r == text
    ensures |text| > length ==> |r| >= 3 && r[|r| - 3..] == "..." && r[..|r| - 3] <= text
    ensures |text| > length >= 0 ==> |r| == length + 3
    ensures length < 0 ==> |r| == (if |text| + length < 0 then 0 else |text| + length) + 3
  {
    if |text| <= length then text
    else
      var end := if length >= 0 then length else if |text| + length < 0 then 0 else |text| + length;
      var r := text[..end] + "...";
      assert r[..|r| - 3] == text[..end];
      r
  }

  /** Truncating twice to the same non-negative length is truncating once. */
  lemma TruncateTwice(text: string, length: nat)
    ensures Truncate(Truncate(text, length), length) == Truncate(text, length)
  {
    var r := Truncate(text, length);
    if |text| > length {
      assert r == text[..length] + "...";
      assert r[..length] == text[..length];
    }
  }

  /** `capitalize`: the first character upper-cased, the rest unchanged. */
  function Capitalize(text: string): (r: string)
    ensures |r| == |text|
    ensures text != [] ==> r[0] == UpperChar(text[0]) && !IsLower(r[0])
    ensures text == [] || r[1..] == text[1..]
  {
    if text == [] then [] else [UpperChar(text[0])] + text[1..]
  }

  /** Capitalizing twice is capitalizing once. */
  lemma CapitalizeIdempotent(text: string)
    ensures Capitalize(Capitalize(text)) == Capitalize(text)
  {
  }

  /** The first character of each non-empty piece (`.map(n => n[0]).join("")`; `undefined` joins as ""). */
  function FirstChars(words: seq<string>): string {
    if words == [] then []
    else (if words[0] == "" then [] else [words[0][0]]) + FirstChars(words[1..])
  }

  /**
   The characters of `s` that start a word: not a space, and first in `s` or
   right after a space (`atStart` says whether `s` begins a word).
   */
  function WordStarts(s: string, atStart: bool): string {
    if s == [] then []
    else (if s[0] != ' ' && atStart then [s[0]] else []) + WordStarts(s[1..], s[0] == ' ')
  }

  /** The first characters of the pieces of `split(" ")` are the word starts of the string. */
  lemma {:induction false} SplitFirstChars(s: string)
    ensures FirstChars(SplitSpaces(s)) == WordStarts(s, true)
    ensures FirstChars(SplitSpaces(s)[1..]) == WordStarts(s, false)
  {
    if s != [] {
      SplitFirstChars(s[1..]);
      var rest := SplitSpaces(s[1..]);
      if s[0] == ' ' {
        assert SplitSpaces(s) == [""] + rest;
        assert SplitSpaces(s)[1..] == rest;
      } else {
        var words := SplitSpaces(s);
        assert words == [[s[0]] + rest[0]] + rest[1..];
        assert words[1..] == rest[1..];
        assert FirstChars(words) == [s[0]] + FirstChars(rest[1..]);
        assert rest == [rest[0]] + rest[1..];
        assert FirstChars(rest) == (if rest[0] == "" then [] else [rest[0][0]]) + FirstChars(rest[1..]);
      }
    }
  }

  /**
   `getInitials`: at most two characters, upper case, the first characters of the
   words of the name in order; empty pieces between spaces contribute nothing.
   */
  function Initials(name: string): (r: string)
    ensures |r| <= 2
    ensures forall i :: 0 <= i < |r| ==> !IsLower(r[i])
    ensures var starts := WordStarts(name, true);
            |r| == (if |starts| < 2 then |starts| else 2)
            && forall i :: 0 <= i < |r| ==> r[i] == UpperChar(starts[i])
  {
    var all := Upper(FirstChars(SplitSpaces(name)));
    SplitFirstChars(name);
    if |all| <= 2 then all else all[..2]
  }

  /** ASCII case-insensitive equality. */
  predicate EqualsIgnoringCase(a: string, b: string) {
    |a| == |b| && forall i :: 0 <= i < |a| ==> LowerChar(a[i]) == LowerChar(b[i])
  }

  lemma LowerEqualIffIgnoringCase(a: string, b: string)
    ensures Lower(a) == Lower(b) <==> EqualsIgnoringCase(a, b)
  {
    if EqualsIgnoringCase(a, b) {
      assert forall i :: 0 <= i < |a| ==> Lower(a)[i] == Lower(b)[i];
    }
    if Lower(a) == Lower(b) {
      assert forall i :: 0 <= i < |a| ==> Lower(a)[i] == Lower(b)[i];
    }
  }

  /** The three priorities the helpers recognise, and everything else. */
  datatype PriorityLevel = HighLevel | MediumLevel | LowLevel | OtherLevel

  /** `switch (priority.toLowerCase())` over "high", "medium" and "low". */
  function LevelOf(priority: string): (l: PriorityLevel)
    ensures l == HighLevel <==> EqualsIgnoringCase(priority, "high")
    ensures l == MediumLevel <==> EqualsIgnoringCase(priority, "medium")
    ensures l == LowLevel <==> EqualsIgnoringCase(priority, "low")
  {
    var p := Lower(priority);
    LowerEqualIffIgnoringCase(priority, "high");
    LowerEqualIffIgnoringCase(priority, "medium");
    LowerEqualIffIgnoringCase(priority, "low");
    assert Lower("high") == "high" && Lower("medium") == "medium" && Lower("low") == "low";
    if p == "high" then HighLevel
    else if p == "medium" then MediumLevel
    else if p == "low" then LowLevel
    else OtherLevel
  }

  /** `getPriorityColor`: high red, medium yellow, low green in any letter case; gray otherwise. */
  function PriorityColor(priority: string): (r: string)
    ensures r == "text-red-500" <==> EqualsIgnoringCase(priority, "high")
    ensures r == "text-yellow-500" <==> EqualsIgnoringCase(priority, "medium")
    ensures r == "text-green-500" <==> EqualsIgnoringCase(priority, "low")
    ensures r == "text-gray-500" <==> LevelOf(priority) == OtherLevel
  {
    match LevelOf(priority)
    case HighLevel => "text-red-500"
    case MediumLevel => "text-yellow-500"
    case LowLevel => "text-green-500"
    case OtherLevel => "text-gray-500"
  }

  /** `getPriorityBadgeVariant`: high destructive, medium default, low secondary in any letter case; outline otherwise. */
  function PriorityBadgeVariant(priority: string): (r: string)
    ensures r == "destructive" <==> EqualsIgnoringCase(priority, "high")
    ensures r == "default" <==> EqualsIgnoringCase(priority, "medium")
    ensures r == "secondary" <==> EqualsIgnoringCase(priority, "low")
    ensures r == "outline" <==> LevelOf(priority) == OtherLevel
  {
    match LevelOf(priority)
    case HighLevel => "destructive"
    case MediumLevel => "default"
    case LowLevel => "secondary"
    case OtherLevel => "outline"
  }

  /** Both mappings depend on the priority only up to ASCII letter case. */
  lemma PriorityMappingsIgnoreCase(p: string, q: string)
    requires EqualsIgnoringCase(p, q)
    ensures PriorityColor(p) == PriorityColor(q)
    ensures PriorityBadgeVariant(p) == PriorityBadgeVariant(q)
  {
    LowerEqualIffIgnoringCase(p, q);
  }
}
