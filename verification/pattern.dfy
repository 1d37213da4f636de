/**
 * The send pattern `(?P<color>[\w\s']*?\s?)(?P<grade>V?[\d.+?-]+)(?P<meta>\s?.*)`
 * and the way FindStringSubmatch splits a send string with it.
 *
 * The pattern is stated as a predicate on positions (IsMatch), and the match
 * the regexp engine reports is stated as the one preferred over every other
 * match: the leftmost start, then the shortest color (the lazy `*?`), then
 * the longest grade and the longest meta (the greedy `+` and `*`). Locate
 * computes that match without a regexp engine.
 */
module SendPattern {
  import opened Wrappers
  import opened Grades

  /** `\s`: tab, newline, form feed, carriage return, space. */
  predicate IsSpace(c: char)
  {
    c == ' ' || c == '\t' || c == '\n' || c == '\U{000C}' || c == '\r'
  }

  /** `\w`: ASCII letters and digits, and underscore. */
  predicate IsWordChar(c: char)
  {
    ('a' <= c <= 'z') || ('A' <= c <= 'Z') || ('0' <= c <= '9') || c == '_'
  }

  /** The color class `[\w\s']`. */
  predicate IsColorChar(c: char) { IsWordChar(c) || IsSpace(c) || c == '\'' }

  /** Match positions: color is s[start..colorEnd], grade is
      s[colorEnd..gradeEnd], meta is s[gradeEnd..metaEnd]. */
  datatype Span = Span(start: nat, colorEnd: nat, gradeEnd: nat, metaEnd: nat)

  /** `[\w\s']*?\s?` matches exactly the strings of color characters. */
  predicate IsColorSpan(s: string, q: nat, c: nat)
  {
    q <= c <= |s| && forall i :: q <= i < c ==> IsColorChar(s[i])
  }

  /** `V?[\d.+?-]+` */
  predicate IsGradeSpan(s: string, c: nat, g: nat)
  {
    && c < g <= |s|
    && (IsGradeChar(s[c]) || (s[c] == 'V' && c + 1 < g))
    && forall i :: c < i < g ==> IsGradeChar(s[i])
  }

  /** `\s?.*`: the dot stops at a newline, and the optional leading space
      may itself be a newline, so only the first character may be one. */
  predicate IsMetaSpan(s: string, g: nat, m: nat)
  {
    g <= m <= |s| && forall i :: g < i < m ==> s[i] != '\n'
  }

  predicate IsMatch(s: string, sp: Span)
  {
    IsColorSpan(s, sp.start, sp.colorEnd) && IsGradeSpan(s, sp.colorEnd, sp.gradeEnd)
    && IsMetaSpan(s, sp.gradeEnd, sp.metaEnd)
  }

  /** The leftmost-first priority between two matches. */
  predicate Preferred(a: Span, b: Span)
  {
    || a.start < b.start
    || (a.start == b.start && a.colorEnd < b.colorEnd)
    || (a.start == b.start && a.colorEnd == b.colorEnd && a.gradeEnd > b.gradeEnd)
    || (a.start == b.start && a.colorEnd == b.colorEnd && a.gradeEnd == b.gradeEnd && a.metaEnd >= b.metaEnd)
  }

  /** A grade can begin at p: a grade character, or a 'V' followed by one. */
  predicate GradeStartsAt(s: string, p: nat)
  {
    p < |s| && (IsGradeChar(s[p]) || (s[p] == 'V' && p + 1 < |s| && IsGradeChar(s[p + 1])))
  }

  lemma GradeSpanStarts(s: string, c: nat, g: nat)
    requires IsGradeSpan(s, c, g)
    ensures GradeStartsAt(s, c)
  {
    if !IsGradeChar(s[c]) {
      assert IsGradeChar(s[c + 1]);
    }
  }

  /** The first index at or after `from` where a grade can begin. */
  function FirstGradeStart(s: string, from: nat): (r: Option<nat>)
    requires from <= |s|
    ensures r.Some? ==> from <= r.value < |s| && GradeStartsAt(s, r.value)
    ensures r.Some? ==> forall i :: from <= i < r.value ==> !GradeStartsAt(s, i)
    ensures r.None? ==> forall i :: from <= i < |s| ==> !GradeStartsAt(s, i)
    decreases |s| - from
  {
    if from == |s| then None
    else if GradeStartsAt(s, from) then Some(from)
    else FirstGradeStart(s, from + 1)
  }

  /** The start of the longest run of color characters ending at p. */
  function ColorStart(s: string, p: nat): (q: nat)
    requires p <= |s|
    ensures IsColorSpan(s, q, p)
    ensures q == 0 || !IsColorChar(s[q - 1])
    decreases p
  {
    if p > 0 && IsColorChar(s[p - 1]) then ColorStart(s, p - 1) else p
  }

  /** The end of the run of grade characters starting at i. */
  function GradeRunEnd(s: string, i: nat): (e: nat)
    requires i <= |s|
    ensures i <= e <= |s|
    ensures forall k :: i <= k < e ==> IsGradeChar(s[k])
    ensures e == |s| || !IsGradeChar(s[e])
    decreases |s| - i
  {
    if i < |s| && IsGradeChar(s[i]) then GradeRunEnd(s, i + 1) else i
  }

  /** The greedy end of a grade that begins at p. */
  function GradeEnd(s: string, p: nat): (g: nat)
    requires GradeStartsAt(s, p)
    ensures IsGradeSpan(s, p, g)
    ensures forall g': nat :: IsGradeSpan(s, p, g') ==> g' <= g
  {
    if IsGradeChar(s[p]) then GradeRunEnd(s, p) else GradeRunEnd(s, p + 1)
  }

  /** The index of the first newline at or after i, or |s|. */
  function LineEnd(s: string, i: nat): (e: nat)
    requires i <= |s|
    ensures i <= e <= |s|
    ensures forall k :: i <= k < e ==> s[k] != '\n'
    ensures e == |s| || s[e] == '\n'
    decreases |s| - i
  {
    if i < |s| && s[i] != '\n' then LineEnd(s, i + 1) else i
  }

  /** The greedy end of the meta that begins at g. */
  function MetaEnd(s: string, g: nat): (m: nat)
    requires g <= |s|
    ensures IsMetaSpan(s, g, m)
    ensures forall m': nat :: IsMetaSpan(s, g, m') ==> m' <= m
  {
    if g < |s| then LineEnd(s, g + 1) else g
  }

  lemma LeftmostFirst(s: string, p: nat)
    requires FirstGradeStart(s, 0) == Some(p)
    ensures var g := GradeEnd(s, p);
            forall sp :: IsMatch(s, sp) ==> Preferred(Span(ColorStart(s, p), p, g, MetaEnd(s, g)), sp)
  {
    forall sp | IsMatch(s, sp)
      ensures Preferred(Span(ColorStart(s, p), p, GradeEnd(s, p), MetaEnd(s, GradeEnd(s, p))), sp)
    {
      GradeSpanStarts(s, sp.colorEnd, sp.gradeEnd);
    }
  }

  lemma NoGradeNoMatch(s: string)
    requires FirstGradeStart(s, 0) == None
    ensures forall sp :: !IsMatch(s, sp)
  {
    forall sp | IsMatch(s, sp) ensures false {
      GradeSpanStarts(s, sp.colorEnd, sp.gradeEnd);
    }
  }

  /** The match FindStringSubmatch reports, if there is one. */
  function Locate(s: string): (r: Option<Span>)
    ensures r.Some? ==> IsMatch(s, r.value)
    ensures r.Some? ==> forall sp :: IsMatch(s, sp) ==> Preferred(r.value, sp)
    ensures r.None? ==> forall sp :: !IsMatch(s, sp)
  {
    match FirstGradeStart(s, 0)
    case None =>
      NoGradeNoMatch(s);
      None
    case Some(p) =>
      var g := GradeEnd(s, p);
      LeftmostFirst(s, p);
      Some(Span(ColorStart(s, p), p, g, MetaEnd(s, g)))
  }

  lemma GradeSpanToken(s: string, c: nat, g: nat)
    requires IsGradeSpan(s, c, g)
    ensures IsGradeToken(s[c..g])
  {
    var t := s[c..g];
    if IsGradeChar(s[c]) {
      assert AllGradeChars(t) by {
        forall i | 0 <= i < |t| ensures IsGradeChar(t[i]) { assert t[i] == s[c + i]; }
      }
    } else {
      assert AllGradeChars(t[1..]) by {
        forall i | 0 <= i < |t| - 1 ensures IsGradeChar(t[1..][i]) { assert t[1..][i] == s[c + 1 + i]; }
      }
    }
  }

  /** The three named groups of a match. */
  datatype Groups = Groups(color: string, grade: GradeToken, meta: string)

  /** A lone grade character is a match: empty color, one-character grade,
      empty meta. */
  lemma GradeCharMatches(s: string, i: nat)
    requires i < |s| && IsGradeChar(s[i])
    ensures IsMatch(s, Span(i, i, i + 1, i + 1))
  {
  }

  /** A string with no match holds no grade character. */
  lemma NoMatchNoGradeChar(s: string)
    requires Locate(s).None?
    ensures !HasGradeChar(s)
  {
    forall i | 0 <= i < |s| && IsGradeChar(s[i]) ensures false {
      GradeCharMatches(s, i);
    }
  }

  /** Every match holds a grade character. */
  lemma MatchHasGradeChar(s: string, sp: Span)
    requires IsMatch(s, sp)
    ensures HasGradeChar(s)
  {
    assert IsGradeChar(s[sp.colorEnd]) || IsGradeChar(s[sp.colorEnd + 1]);
  }

  /** FindStringSubmatch followed by reading groups 1 to 3: a send string
      gives groups exactly when it holds a grade character, and then they
      are the slices of the preferred match. */
  function Split(s: string): (r: Option<Groups>)
    ensures r.Some? <==> HasGradeChar(s)
    ensures r.Some? ==> Locate(s).Some?
    ensures r.Some? ==> var sp := Locate(s).value;
              && r.value.color == s[sp.start..sp.colorEnd]
              && r.value.grade == s[sp.colorEnd..sp.gradeEnd]
              && r.value.meta == s[sp.gradeEnd..sp.metaEnd]
  {
    match Locate(s)
    case None =>
      NoMatchNoGradeChar(s);
      None
    case Some(sp) =>
      GradeSpanToken(s, sp.colorEnd, sp.gradeEnd);
      MatchHasGradeChar(s, sp);
      Some(Groups(s[sp.start..sp.colorEnd], s[sp.colorEnd..sp.gradeEnd], s[sp.gradeEnd..sp.metaEnd]))
  }
}
