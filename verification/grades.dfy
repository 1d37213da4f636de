/**
 * The grade key: every raw grade token maps to a number, and sends are
 * ordered by that number. Point scores keep their own value, anything with
 * a question mark sits at 10000, rope grades "5.x" at 20000 + x, boulder
 * grades "Vx" at 100000 + x, and grades that cannot be read at 1000000
 * (malformed rope grades fall back to 10000 instead). A trailing '+' or '-'
 * adds or subtracts a tenth.
 */
module Grades {
  import opened Wrappers

  // ---------------------------------------------------------------------
  // The grade alphabet
  // ---------------------------------------------------------------------

  predicate IsDigit(c: char) { '0' <= c <= '9' }

  /** The characters of the send pattern's grade class `[\d.+?-]`. */
  predicate IsGradeChar(c: char) { IsDigit(c) || c == '.' || c == '+' || c == '?' || c == '-' }

  predicate AllGradeChars(s: string) { forall i :: 0 <= i < |s| ==> IsGradeChar(s[i]) }

  predicate AllDigits(s: string) { forall i :: 0 <= i < |s| ==> IsDigit(s[i]) }

  predicate HasDigit(s: string) { exists i :: 0 <= i < |s| && IsDigit(s[i]) }

  /** Somewhere in s the grade class `[\d.+?-]` can match. */
  predicate HasGradeChar(s: string) { exists i :: 0 <= i < |s| && IsGradeChar(s[i]) }

  /** An optional 'V' followed by grade characters: every string the grade
      key is ever asked about has this shape. */
  predicate InGradeAlphabet(g: string)
  {
    AllGradeChars(g) || (|g| > 0 && g[0] == 'V' && AllGradeChars(g[1..]))
  }

  /** What the send pattern's grade group `V?[\d.+?-]+` captures: the
      alphabet above, with at least one grade character. */
  predicate IsGradeToken(g: string) { InGradeAlphabet(g) && g != "" && g != "V" }

  type GradeToken = g: string | IsGradeToken(g) witness "0"

  // ---------------------------------------------------------------------
  // strconv.ParseFloat on strings over 0-9 . + -
  // ---------------------------------------------------------------------

  function DigitValue(c: char): nat
    requires IsDigit(c)
  {
    c as int - '0' as int
  }

  function DigitsValue(s: string): nat
    requires AllDigits(s)
    decreases |s|
  {
    if s == [] then 0 else 10 * DigitsValue(s[..|s| - 1]) + DigitValue(s[|s| - 1])
  }

  function Pow10(n: nat): (p: nat)
    ensures p >= 1
  {
    if n == 0 then 1 else 10 * Pow10(n - 1)
  }

  /** Index of the first '.', or |s| when there is none. */
  function DotIndex(s: string): (p: nat)
    ensures p <= |s|
    ensures p < |s| ==> s[p] == '.'
    ensures forall i :: 0 <= i < p ==> s[i] != '.'
    decreases |s|
  {
    if s == [] then 0 else if s[0] == '.' then 0 else 1 + DotIndex(s[1..])
  }

  /** The literals ParseFloat accepts over this alphabet, as a grammar:
      digits with at most one '.', and at least one digit ... */
  ghost predicate IsUnsignedLiteral(s: string)
  {
    && (forall i :: 0 <= i < |s| ==> IsDigit(s[i]) || s[i] == '.')
    && (forall i, j {:trigger SecondDot(s, i, j)} :: !SecondDot(s, i, j))
    && HasDigit(s)
  }

  /** Positions i < j both holding a '.'. */
  predicate SecondDot(s: string, i: int, j: int)
  {
    0 <= i < j < |s| && s[i] == '.' && s[j] == '.'
  }

  predicate IsSign(c: char) { c == '+' || c == '-' }

  /** ... optionally after one sign. */
  ghost predicate IsDecimalLiteral(s: string)
  {
    IsUnsignedLiteral(s) || (|s| > 0 && IsSign(s[0]) && IsUnsignedLiteral(s[1..]))
  }

  /** Splitting at the first '.' leaves two digit strings, not both empty,
      exactly when s is an unsigned literal. */
  lemma DotSplitLiteral(s: string)
    ensures var p := DotIndex(s);
            var frac := if p < |s| then s[p + 1..] else "";
            AllDigits(s[..p]) && AllDigits(frac) && p + |frac| > 0 <==> IsUnsignedLiteral(s)
  {
    var p := DotIndex(s);
    var frac := if p < |s| then s[p + 1..] else "";
    if AllDigits(s[..p]) && AllDigits(frac) && p + |frac| > 0 {
      forall j | p < j < |s| ensures IsDigit(s[j]) { assert s[j] == frac[j - p - 1]; }
      forall i | 0 <= i < |s| ensures IsDigit(s[i]) || s[i] == '.' {
        if i < p { assert s[i] == s[..p][i]; }
      }
      forall i, j ensures !SecondDot(s, i, j) { }
      if p > 0 { assert IsDigit(s[..p][0]); } else { assert IsDigit(s[1]); }
    }
    if IsUnsignedLiteral(s) {
      forall i | 0 <= i < p ensures IsDigit(s[..p][i]) { assert s[..p][i] == s[i]; }
      if p < |s| {
        forall k | 0 <= k < |frac| ensures IsDigit(frac[k]) {
          assert frac[k] == s[p + 1 + k] && !SecondDot(s, p, p + 1 + k);
        }
      }
      var k :| 0 <= k < |s| && IsDigit(s[k]);
      assert k < p || (p < |s| && k - p - 1 < |frac|);
    }
  }

  /** The number the digits ip '.' fp stand for. */
  function LiteralValue(ip: string, fp: string): real
    requires AllDigits(ip) && AllDigits(fp)
  {
    DigitsValue(ip) as real + DigitsValue(fp) as real / Pow10(|fp|) as real
  }

  /** Digits with at most one '.', and at least one digit. */
  function ParseUnsigned(s: string): (r: Option<real>)
    ensures r.Some? <==> IsUnsignedLiteral(s)
  {
    var p := DotIndex(s);
    var intPart := s[..p];
    var fracPart := if p < |s| then s[p + 1..] else "";
    DotSplitLiteral(s);
    if AllDigits(intPart) && AllDigits(fracPart) && |intPart| + |fracPart| > 0 then
      Some(LiteralValue(intPart, fracPart))
    else
      None
  }

  /** The decimal literals ParseFloat accepts over this alphabet: an
      optional sign, then digits with at most one '.', at least one digit. */
  function ParseDecimal(s: string): (r: Option<real>)
    ensures r.Some? <==> IsDecimalLiteral(s)
  {
    if |s| > 0 && IsSign(s[0]) then
      match ParseUnsigned(s[1..])
      case None => None
      case Some(v) => Some(if s[0] == '-' then -v else v)
    else
      ParseUnsigned(s)
  }

  /** The first '.' is at k when none comes before k and s[k] is one. */
  lemma DotIndexAt(s: string, k: nat)
    requires k <= |s| && (k < |s| ==> s[k] == '.')
    requires forall i :: 0 <= i < k ==> s[i] != '.'
    ensures DotIndex(s) == k
  {
  }

  /** ParseUnsigned on a string whose first '.' is at k. */
  lemma ParseUnsignedAt(u: string, k: nat)
    requires k < |u| && DotIndex(u) == k
    requires AllDigits(u[..k]) && AllDigits(u[k + 1..]) && |u| > 1
    ensures ParseUnsigned(u)
         == Some(LiteralValue(u[..k], u[k + 1..]))
  {
  }

  /** The value of a literal with a '.': the integer digits plus the
      fraction digits scaled by their count. */
  lemma ParseUnsignedDot(ip: string, fp: string)
    requires AllDigits(ip) && AllDigits(fp) && |ip| + |fp| > 0
    ensures ParseUnsigned(ip + "." + fp) == Some(LiteralValue(ip, fp))
  {
    var u := ip + "." + fp;
    DotConcat(ip, fp);
    ParseUnsignedAt(u, |ip|);
  }

  /** In ip + "." + fp with ip all digits, the first '.' is the one between
      the parts. */
  lemma DotConcat(ip: string, fp: string)
    requires AllDigits(ip)
    ensures var u := ip + "." + fp;
            DotIndex(u) == |ip| && u[..|ip|] == ip && u[|ip| + 1..] == fp
  {
    var u := ip + "." + fp;
    forall i | 0 <= i < |ip| ensures u[i] != '.' { assert u[i] == ip[i]; }
    DotIndexAt(u, |ip|);
    assert u[..|ip|] == ip && u[|ip| + 1..] == fp;
  }

  /** The value of a literal without a '.': its digits. */
  lemma ParseUnsignedDigits(ip: string)
    requires AllDigits(ip) && |ip| > 0
    ensures ParseUnsigned(ip) == Some(DigitsValue(ip) as real)
  {
    assert DotIndex(ip) == |ip| by { DotIndexAt(ip, |ip|); }
    assert ip[..|ip|] == ip;
    assert LiteralValue(ip, "") == DigitsValue(ip) as real by {
      assert DigitsValue("") == 0 && Pow10(0) == 1;
    }
  }

  /** A leading sign negates ('-') or keeps ('+') what the rest reads as;
      without a sign the literal is read as it stands. */
  lemma ParseDecimalSign(sign: string, u: string)
    requires sign == "" || sign == "+" || sign == "-"
    requires IsUnsignedLiteral(u)
    ensures ParseUnsigned(u).Some?
    ensures ParseDecimal(sign + u)
         == Some(if sign == "-" then -ParseUnsigned(u).value else ParseUnsigned(u).value)
  {
    if sign == "" {
      assert sign + u == u;
      var k :| 0 <= k < |u| && IsDigit(u[k]);
      assert !IsSign(u[0]);
    } else {
      assert (sign + u)[0] == sign[0] && (sign + u)[1..] == u;
    }
  }

  /** A literal ends in a digit or a '.', never in a sign. */
  lemma LiteralEnd(s: string)
    requires IsDecimalLiteral(s)
    ensures |s| > 0 && !IsSign(s[|s| - 1])
  {
    if IsUnsignedLiteral(s) {
      var k :| 0 <= k < |s| && IsDigit(s[k]);
    } else {
      var k :| 0 <= k < |s[1..]| && IsDigit(s[1..][k]);
      assert s[|s| - 1] == s[1..][|s| - 2];
    }
  }

  /** A literal is made of grade characters other than '?', and holds a
      digit. */
  lemma LiteralChars(s: string)
    requires IsDecimalLiteral(s)
    ensures AllGradeChars(s) && '?' !in s && HasDigit(s)
  {
    if !IsUnsignedLiteral(s) {
      assert forall i :: 1 <= i < |s| ==> s[i] == s[1..][i - 1];
      var k :| 0 <= k < |s[1..]| && IsDigit(s[1..][k]);
      assert IsDigit(s[k + 1]);
    }
  }

  // ---------------------------------------------------------------------
  // parseGrade
  // ---------------------------------------------------------------------

  predicate EndsWith(s: string, c: char) { |s| > 0 && s[|s| - 1] == c }

  /** strings.TrimSuffix with a one-character suffix. */
  function TrimSuffix(s: string, c: char): string
  {
    if EndsWith(s, c) then s[..|s| - 1] else s
  }

  /** The part of a band grade that is parsed: one '+' and then one '-'
      trimmed from its end. */
  function TrimModifier(rest: string): (t: string)
    ensures |t| <= |rest| && t == rest[..|t|]
  {
    TrimSuffix(TrimSuffix(rest, '+'), '-')
  }

  /** The trim order on every modifier ending of a string u that does not
      itself end in a sign: "+", "-" and "-+" are removed entirely, while
      "+-" loses only its '-'. */
  lemma TrimModifierCases(u: string)
    requires u == [] || !IsSign(u[|u| - 1])
    ensures TrimModifier(u) == u
    ensures TrimModifier(u + "+") == u && TrimModifier(u + "-") == u
    ensures TrimModifier(u + "-+") == u
    ensures TrimModifier(u + "+-") == u + "+"
  {
    TrimSuffixAbsent(u, '+');
    TrimSuffixAbsent(u, '-');
    TrimSuffixAdded(u, '+');
    TrimSuffixAbsent(u + "-", '+');
    TrimSuffixAdded(u, '-');
    assert u + "-+" == (u + "-") + "+";
    TrimSuffixAdded(u + "-", '+');
    TrimSuffixAbsent(u + "+-", '+');
    assert u + "+-" == (u + "+") + "-";
    TrimSuffixAdded(u + "+", '-');
  }

  /** TrimSuffix removes the character it was given from the end. */
  lemma TrimSuffixAdded(u: string, c: char)
    ensures TrimSuffix(u + [c], c) == u
  {
    assert (u + [c])[..|u|] == u;
  }

  /** TrimSuffix leaves a string that does not end in c unchanged. */
  lemma TrimSuffixAbsent(u: string, c: char)
    requires !EndsWith(u, c)
    ensures TrimSuffix(u, c) == u
  {
  }

  /** The shared rule of the boulder and rope bands: the modifier flags are
      read first, then the modifier is trimmed and the rest parsed; a rest
      that is not a literal gives the band's fallback key. */
  function BandKey(rest: string, base: real, malformed: real): (k: real)
    ensures !IsDecimalLiteral(TrimModifier(rest)) ==> k == malformed
  {
    var hasPlus := EndsWith(rest, '+');
    var hasMinus := EndsWith(rest, '-');
    match ParseDecimal(TrimModifier(rest))
    case None => malformed
    case Some(v) => base + v + (if hasPlus then 0.1 else if hasMinus then -0.1 else 0.0)
  }

  const UnknownKey: real := 10000.0
  const RopeBase: real := 20000.0
  const BoulderBase: real := 100000.0
  const LastKey: real := 1000000.0

  predicate IsRopePrefixed(g: string) { |g| >= 2 && g[..2] == "5." }

  /** A grade parseGrade cannot read: no '?', and the part it parses is not
      a literal -- for a boulder grade the remainder after 'V' with its
      modifier trimmed, for a grade outside the rope band the whole of it. */
  ghost predicate Unreadable(g: string)
  {
    && '?' !in g
    && if |g| > 0 && g[0] == 'V' then !IsDecimalLiteral(TrimModifier(g[1..]))
       else !IsRopePrefixed(g) && !IsDecimalLiteral(g)
  }

  /** A "5." grade whose remainder, modifier trimmed, is not a literal. */
  ghost predicate MalformedRope(g: string)
  {
    '?' !in g && IsRopePrefixed(g) && !IsDecimalLiteral(TrimModifier(g[2..]))
  }

  /** parseGrade: the sort key of a grade token. An unreadable grade sorts
      last; a malformed rope grade sorts with the '?' grades. */
  function GradeKey(grade: string): (k: real)
    requires InGradeAlphabet(grade)
    ensures Unreadable(grade) ==> k == LastKey
    ensures MalformedRope(grade) ==> k == UnknownKey
  {
    if '?' in grade then UnknownKey
    else if |grade| > 0 && grade[0] == 'V' then BandKey(grade[1..], BoulderBase, LastKey)
    else if IsRopePrefixed(grade) then BandKey(grade[2..], RopeBase, UnknownKey)
    else
      match ParseDecimal(grade)
      case Some(v) => v
      case None => LastKey
  }

  // ---------------------------------------------------------------------
  // Well-formed grades, built from their parts
  // ---------------------------------------------------------------------

  datatype Modifier = Unmodified | Plus | Minus

  function Suffix(m: Modifier): string
  {
    match m
    case Unmodified => ""
    case Plus => "+"
    case Minus => "-"
  }

  /** What a modifier is worth on the key. */
  function Adjustment(m: Modifier): real
  {
    match m
    case Unmodified => 0.0
    case Plus => 0.1
    case Minus => -0.1
  }

  /** Where a modifier ranks: "-" below none below "+". */
  function Rank(m: Modifier): nat
  {
    match m
    case Minus => 0
    case Unmodified => 1
    case Plus => 2
  }

  function DigitChar(d: nat): (c: char)
    requires d < 10
    ensures IsDigit(c) && DigitValue(c) == d
  {
    ('0' as int + d) as char
  }

  /** The decimal numeral of n, without leading zeros. */
  function DecimalString(n: nat): (s: string)
    ensures |s| > 0 && AllDigits(s)
    ensures |s| == 1 || s[0] != '0'
    decreases n
  {
    if n < 10 then [DigitChar(n)]
    else
      var high := DecimalString(n / 10);
      assert |high| == 1 ==> high[0] != '0' by {
        if |high| == 1 { assert DigitValue(high[0]) == n / 10 > 0; }
      }
      high + [DigitChar(n % 10)]
  }

  function PointGrade(n: nat): (g: string)
    ensures IsGradeToken(g)
  {
    var d := DecimalString(n);
    assert AllGradeChars(d) by {
      forall i | 0 <= i < |d| ensures IsGradeChar(d[i]) { assert IsDigit(d[i]); }
    }
    d
  }

  function RopeGrade(n: nat, m: Modifier): (g: string)
    ensures IsGradeToken(g)
  {
    var d := DecimalString(n);
    var g := "5." + d + Suffix(m);
    assert AllGradeChars(g) by {
      forall i | 0 <= i < |g| ensures IsGradeChar(g[i]) {
        if 2 <= i < 2 + |d| { assert g[i] == d[i - 2]; }
      }
    }
    g
  }

  function BoulderGrade(n: nat, m: Modifier): (g: string)
    ensures IsGradeToken(g)
  {
    var d := DecimalString(n);
    var g := "V" + d + Suffix(m);
    assert AllGradeChars(g[1..]) by {
      forall i | 0 <= i < |g| - 1 ensures IsGradeChar(g[1..][i]) {
        if i < |d| { assert g[1..][i] == d[i]; }
      }
    }
    g
  }

  // ---------------------------------------------------------------------
  // Properties of the key
  // ---------------------------------------------------------------------

  /** DigitsValue reads back the numeral DecimalString writes. */
  lemma {:induction false} DecimalStringValue(n: nat)
    ensures DigitsValue(DecimalString(n)) == n
    decreases n
  {
    var s := DecimalString(n);
    if n >= 10 {
      DecimalStringValue(n / 10);
      assert s[..|s| - 1] == DecimalString(n / 10);
    }
  }

  /** ParseFloat reads a plain numeral back as its number. */
  lemma ParseDecimalString(n: nat)
    ensures ParseDecimal(DecimalString(n)) == Some(n as real)
  {
    var s := DecimalString(n);
    DecimalStringValue(n);
    ParseUnsignedDigits(s);
    assert !IsSign(s[0]);
  }

  /** Grade characters other than '?', joined, stay so. */
  lemma PlainGradeChars(a: string, b: string)
    requires AllGradeChars(a) && '?' !in a && AllGradeChars(b) && '?' !in b
    ensures AllGradeChars(a + b) && '?' !in a + b
  {
    var c := a + b;
    forall i | 0 <= i < |c| ensures IsGradeChar(c[i]) && c[i] != '?' {
      if i < |a| { assert c[i] == a[i]; } else { assert c[i] == b[i - |a|]; }
    }
  }

  /** A literal followed by a modifier is made of grade characters other
      than '?'. */
  lemma LiteralWithModifier(lit: string, m: Modifier)
    requires IsDecimalLiteral(lit)
    ensures AllGradeChars(lit + Suffix(m)) && '?' !in lit + Suffix(m) && lit + Suffix(m) != ""
  {
    LiteralChars(lit);
    PlainGradeChars(lit, Suffix(m));
  }

  /** "V" + t, for t of grade characters other than '?'. */
  lemma BoulderShape(t: string)
    requires AllGradeChars(t) && '?' !in t && t != ""
    ensures var g := "V" + t; IsGradeToken(g) && '?' !in g && g[0] == 'V' && g[1..] == t
  {
    var g := "V" + t;
    assert g[1..] == t;
    assert forall i :: 1 <= i < |g| ==> g[i] == t[i - 1];
  }

  /** "5." + t, for t of grade characters other than '?'. */
  lemma RopeShape(t: string)
    requires AllGradeChars(t) && '?' !in t
    ensures var g := "5." + t;
            IsGradeToken(g) && '?' !in g && g[0] != 'V' && IsRopePrefixed(g) && g[2..] == t
  {
    var g := "5." + t;
    assert g[2..] == t && g[..2] == "5.";
    PlainGradeChars("5.", t);
  }

  /** Any grade containing '?' is in the unknown band, whatever its prefix. */
  lemma UnknownBand(g: string)
    requires InGradeAlphabet(g) && '?' in g
    ensures GradeKey(g) == 10000.0
  {
  }

  /** The band rule on a literal followed by a modifier: the modifier is
      trimmed off exactly, and the key is base + the literal's value,
      adjusted by the modifier. */
  lemma BandKeyOfLiteral(lit: string, v: real, m: Modifier, base: real, malformed: real)
    requires ParseDecimal(lit) == Some(v)
    ensures BandKey(lit + Suffix(m), base, malformed) == base + v + Adjustment(m)
  {
    LiteralEnd(lit);
    var rest := lit + Suffix(m);
    match m
    case Unmodified =>
      assert rest == lit;
    case Plus =>
      assert rest[..|rest| - 1] == lit;
    case Minus =>
      assert rest[..|rest| - 1] == lit;
  }

  /** A boulder grade V<literal>[+|-] is at 100000 + the literal's value,
      adjusted by its modifier ("V0.5", "V-1" included). */
  lemma BoulderLiteralKey(lit: string, v: real, m: Modifier)
    requires ParseDecimal(lit) == Some(v)
    ensures IsGradeToken("V" + lit + Suffix(m))
    ensures GradeKey("V" + lit + Suffix(m)) == 100000.0 + v + Adjustment(m)
  {
    LiteralWithModifier(lit, m);
    BoulderShape(lit + Suffix(m));
    assert "V" + lit + Suffix(m) == "V" + (lit + Suffix(m));
    BandKeyOfLiteral(lit, v, m, BoulderBase, LastKey);
  }

  /** A rope grade 5.<literal>[+|-] is at 20000 + the literal's value,
      adjusted by its modifier ("5.09" is at 20009). */
  lemma RopeLiteralKey(lit: string, v: real, m: Modifier)
    requires ParseDecimal(lit) == Some(v)
    ensures IsGradeToken("5." + lit + Suffix(m))
    ensures GradeKey("5." + lit + Suffix(m)) == 20000.0 + v + Adjustment(m)
  {
    LiteralWithModifier(lit, m);
    RopeShape(lit + Suffix(m));
    assert "5." + lit + Suffix(m) == "5." + (lit + Suffix(m));
    BandKeyOfLiteral(lit, v, m, RopeBase, UnknownKey);
  }

  /** A literal outside the rope band keeps its own value ("-3", "0.5",
      ".5", "7."); a literal such as "5." or "5.5" that starts with "5."
      is read by the rope band instead. */
  lemma PointLiteralKey(lit: string, v: real)
    requires ParseDecimal(lit) == Some(v) && !IsRopePrefixed(lit)
    ensures IsGradeToken(lit) && GradeKey(lit) == v
  {
    LiteralChars(lit);
    assert IsGradeChar(lit[0]);
  }

  /** A plain numeral keeps its own value. */
  lemma PointKey(n: nat)
    ensures GradeKey(PointGrade(n)) == n as real
  {
    var d := DecimalString(n);
    ParseDecimalString(n);
    assert |d| >= 2 ==> d[..2][1] == d[1];
    PointLiteralKey(d, n as real);
  }

  /** A well-formed rope grade 5.n[+|-] is at 20000 + n, adjusted by its modifier. */
  lemma RopeKey(n: nat, m: Modifier)
    ensures GradeKey(RopeGrade(n, m)) == 20000.0 + n as real + Adjustment(m)
  {
    ParseDecimalString(n);
    RopeLiteralKey(DecimalString(n), n as real, m);
  }

  /** A well-formed boulder grade Vn[+|-] is at 100000 + n, adjusted by its modifier. */
  lemma BoulderKey(n: nat, m: Modifier)
    ensures GradeKey(BoulderGrade(n, m)) == 100000.0 + n as real + Adjustment(m)
  {
    ParseDecimalString(n);
    BoulderLiteralKey(DecimalString(n), n as real, m);
  }

  /** Within the boulder band: a higher number is harder whatever the
      modifiers, and for one number Vn- < Vn < Vn+. */
  lemma BoulderOrder(n1: nat, m1: Modifier, n2: nat, m2: Modifier)
    requires n1 < n2 || (n1 == n2 && Rank(m1) < Rank(m2))
    ensures GradeKey(BoulderGrade(n1, m1)) < GradeKey(BoulderGrade(n2, m2))
  {
    BoulderKey(n1, m1);
    BoulderKey(n2, m2);
  }

  /** Within the rope band: 5.n- < 5.n < 5.n+, and a higher number is harder
      whatever the modifiers. */
  lemma RopeOrder(n1: nat, m1: Modifier, n2: nat, m2: Modifier)
    requires n1 < n2 || (n1 == n2 && Rank(m1) < Rank(m2))
    ensures GradeKey(RopeGrade(n1, m1)) < GradeKey(RopeGrade(n2, m2))
  {
    RopeKey(n1, m1);
    RopeKey(n2, m2);
  }

  /** A grade with neither a digit nor a '?' cannot be read, whatever its
      prefix: it lands in the last band. */
  lemma NoDigitIsLast(g: string)
    requires InGradeAlphabet(g) && '?' !in g && !HasDigit(g)
    ensures GradeKey(g) == 1000000.0
  {
    if |g| > 0 && g[0] == 'V' {
      var t := TrimModifier(g[1..]);
      assert !HasDigit(t) by {
        forall i | 0 <= i < |t| ensures !IsDigit(t[i]) { assert t[i] == g[i + 1]; }
      }
      if IsDecimalLiteral(t) { LiteralChars(t); }
    } else {
      if |g| >= 2 {
        assert g[..2][0] == g[0];
      }
      if IsDecimalLiteral(g) { LiteralChars(g); }
    }
    assert Unreadable(g);
  }

  /** The trim order in the band rule: '+' is trimmed before '-', so a
      literal followed by "-+" loses both signs and reads with a plus (both
      flags are set, and plus wins). */
  lemma BandKeyMinusPlus(lit: string, v: real, base: real, malformed: real)
    requires ParseDecimal(lit) == Some(v)
    ensures BandKey(lit + "-+", base, malformed) == base + v + 0.1
  {
    var t := lit + "-+";
    LiteralEnd(lit);
    assert t[..|t| - 1] == lit + "-";
    assert (lit + "-")[..|lit|] == lit;
  }

  /** ... and a literal followed by "+-" keeps its '+' after trimming, which
      is not a literal: the band's fallback key. */
  lemma BandKeyPlusMinus(lit: string, base: real, malformed: real)
    requires IsDecimalLiteral(lit)
    ensures BandKey(lit + "+-", base, malformed) == malformed
  {
    var t := lit + "+-";
    var trimmed := TrimModifier(t);
    assert trimmed == lit + "+" by { assert t[..|t| - 1] == lit + "+"; }
    if IsDecimalLiteral(trimmed) { LiteralEnd(trimmed); }
  }

  /** "V<literal>-+" loses both signs: 100000 + the literal's value + 0.1. */
  lemma MinusThenPlusKey(lit: string, v: real)
    requires ParseDecimal(lit) == Some(v)
    ensures IsGradeToken("V" + lit + "-+")
    ensures GradeKey("V" + lit + "-+") == 100000.0 + v + 0.1
  {
    var t := lit + "-+";
    LiteralChars(lit);
    PlainGradeChars(lit, "-+");
    BoulderShape(t);
    assert "V" + lit + "-+" == "V" + t;
    BandKeyMinusPlus(lit, v, BoulderBase, LastKey);
  }

  /** "5.<literal>-+" loses both signs: 20000 + the literal's value + 0.1. */
  lemma RopeMinusThenPlusKey(lit: string, v: real)
    requires ParseDecimal(lit) == Some(v)
    ensures IsGradeToken("5." + lit + "-+")
    ensures GradeKey("5." + lit + "-+") == 20000.0 + v + 0.1
  {
    var t := lit + "-+";
    LiteralChars(lit);
    PlainGradeChars(lit, "-+");
    RopeShape(t);
    assert "5." + lit + "-+" == "5." + t;
    BandKeyMinusPlus(lit, v, RopeBase, UnknownKey);
  }

  /** "5.<literal>+-" keeps its '+' after trimming: a malformed rope grade,
      at 10000. */
  lemma RopePlusThenMinusKey(lit: string)
    requires IsDecimalLiteral(lit)
    ensures IsGradeToken("5." + lit + "+-")
    ensures GradeKey("5." + lit + "+-") == 10000.0
  {
    var t := lit + "+-";
    LiteralChars(lit);
    PlainGradeChars(lit, "+-");
    RopeShape(t);
    assert "5." + lit + "+-" == "5." + t;
    BandKeyPlusMinus(lit, RopeBase, UnknownKey);
  }

  /** ... while "V<literal>+-" loses only the '-', leaving the literal
      followed by '+', which is not a literal: the grade is read as
      malformed. */
  lemma PlusThenMinusKey(lit: string)
    requires IsDecimalLiteral(lit)
    ensures IsGradeToken("V" + lit + "+-")
    ensures GradeKey("V" + lit + "+-") == 1000000.0
  {
    var t := lit + "+-";
    LiteralChars(lit);
    PlainGradeChars(lit, "+-");
    BoulderShape(t);
    assert "V" + lit + "+-" == "V" + t;
    var trimmed := TrimModifier(t);
    assert trimmed == lit + "+" by { assert t[..|t| - 1] == lit + "+"; }
    if IsDecimalLiteral(trimmed) { LiteralEnd(trimmed); }
    assert Unreadable("V" + t);
  }

  /** The bands in order: a point grade below 10000 < any '?' grade < a rope
      grade below 5.80000 < a boulder grade below V899999 < an unreadable
      grade. */
  lemma BandsOrdered(p: nat, r: nat, rm: Modifier, b: nat, bm: Modifier, u: string, bad: string)
    requires p < 10000 && r < 80000 && b < 899999
    requires InGradeAlphabet(u) && '?' in u
    requires InGradeAlphabet(bad) && Unreadable(bad)
    ensures GradeKey(PointGrade(p)) < GradeKey(u) < GradeKey(RopeGrade(r, rm))
    ensures GradeKey(RopeGrade(r, rm)) < GradeKey(BoulderGrade(b, bm)) < GradeKey(bad)
  {
    PointKey(p);
    RopeKey(r, rm);
    BoulderKey(b, bm);
  }

  /** The bounds in BandsOrdered matter: a point score of 25000 sorts above
      the rope grade 5.9, and the rope grade 5.90000 above the boulder grade
      V1. */
  lemma BandsOverlap()
    ensures GradeKey(PointGrade(25000)) > GradeKey(RopeGrade(9, Unmodified))
    ensures GradeKey(RopeGrade(90000, Unmodified)) > GradeKey(BoulderGrade(1, Unmodified))
  {
    PointKey(25000);
    RopeKey(9, Unmodified);
    RopeKey(90000, Unmodified);
    BoulderKey(1, Unmodified);
  }

  // ---------------------------------------------------------------------
  // Examples: grades that hold digits but are not read as numbers, and
  // literals other than plain numerals
  // ---------------------------------------------------------------------

  /** "V4++" keeps "4+" after trimming, which is not a literal. */
  lemma DoublePlusExample()
    ensures InGradeAlphabet("V4++") && GradeKey("V4++") == 1000000.0
  {
    assert "V4++"[1..] == "4++" && TrimModifier("4++") == "4+";
    if IsDecimalLiteral("4+") { LiteralEnd("4+"); }
    assert Unreadable("V4++");
  }

  /** "V1.2.3" has two dots. */
  lemma TwoDotsExample()
    ensures InGradeAlphabet("V1.2.3") && GradeKey("V1.2.3") == 1000000.0
  {
    assert "V1.2.3"[1..] == "1.2.3" && TrimModifier("1.2.3") == "1.2.3";
    assert SecondDot("1.2.3", 1, 3);
    assert Unreadable("V1.2.3");
  }

  /** "5.10+-" keeps "10+" after trimming: a malformed rope grade. */
  lemma RopePlusMinusExample()
    ensures InGradeAlphabet("5.10+-") && GradeKey("5.10+-") == 10000.0
  {
    assert "5.10+-"[..2] == "5." && "5.10+-"[2..] == "10+-" && TrimModifier("10+-") == "10+";
    if IsDecimalLiteral("10+") { LiteralEnd("10+"); }
    assert MalformedRope("5.10+-");
  }

  /** "5.1-2" has a sign inside its remainder: a malformed rope grade. */
  lemma RopeInnerSignExample()
    ensures InGradeAlphabet("5.1-2") && GradeKey("5.1-2") == 10000.0
  {
    assert "5.1-2"[..2] == "5." && "5.1-2"[2..] == "1-2" && TrimModifier("1-2") == "1-2";
    assert !IsDigit("1-2"[1]) && !IsSign("1-2"[0]);
    assert MalformedRope("5.1-2");
  }

  /** "0.5" reads as one half. */
  lemma ParseHalfExample()
    ensures ParseDecimal("0.5") == Some(0.5)
  {
    assert LiteralValue("0", "5") == 0.5 by {
      assert DigitsValue("0") == 0 && DigitsValue("5") == 5 && Pow10(1) == 10;
    }
    ParseUnsignedDot("0", "5");
    assert "0" + "." + "5" == "0.5";
    ParseDecimalSign("", "0.5");
    assert "" + "0.5" == "0.5";
  }

  /** A fractional boulder grade: "V0.5" is at 100000.5. */
  lemma BoulderFractionExample()
    ensures InGradeAlphabet("V0.5") && GradeKey("V0.5") == 100000.5
  {
    ParseHalfExample();
    BoulderLiteralKey("0.5", 0.5, Unmodified);
    assert "V" + "0.5" + "" == "V0.5";
  }

  /** A leading zero is read away: "5.09" is at 20009, with "5.9". */
  lemma RopeLeadingZeroExample()
    ensures InGradeAlphabet("5.09") && GradeKey("5.09") == 20009.0
  {
    assert ParseDecimal("09") == Some(9.0) by {
      assert DigitsValue("09") == 9 by { assert "09"[..1] == "0"; }
      ParseUnsignedDigits("09");
      ParseDecimalSign("", "09");
      assert "" + "09" == "09";
    }
    RopeLiteralKey("09", 9.0, Unmodified);
    assert "5." + "09" + "" == "5.09";
  }

  /** A negative point grade keeps its value: "-3" sorts before "0". */
  lemma NegativePointExample()
    ensures InGradeAlphabet("-3") && GradeKey("-3") == -3.0
  {
    assert ParseDecimal("-3") == Some(-3.0) by {
      assert DigitsValue("3") == 3;
      ParseUnsignedDigits("3");
      ParseDecimalSign("-", "3");
      assert "-" + "3" == "-3";
    }
    PointLiteralKey("-3", -3.0);
  }
}
