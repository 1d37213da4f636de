/**
 * What the tool reports once the sends are sorted: every send (list mode),
 * a count per exact grade string in first-seen order (count mode), or the
 * distinct non-empty dates of the sends with one exact grade, in order
 * (dates mode).
 */
module Report {
  import opened Wrappers
  import opened Grades
  import opened Lex
  import opened StableSort
  import opened SendPattern
  import opened Sends

  // ---------------------------------------------------------------------
  // Sequences of strings: occurrences and first-seen order
  // ---------------------------------------------------------------------

  function Occurrences(s: seq<string>, x: string): nat
    decreases |s|
  {
    if s == [] then 0 else Occurrences(s[..|s| - 1], x) + (if s[|s| - 1] == x then 1 else 0)
  }

  /** Each element of s once, in the order of its first occurrence. */
  function FirstSeen(s: seq<string>): (d: seq<string>)
    ensures forall x :: x in d <==> x in s
    decreases |s|
  {
    if s == [] then []
    else
      var d := FirstSeen(s[..|s| - 1]);
      assert s == s[..|s| - 1] + [s[|s| - 1]];
      if s[|s| - 1] in d then d else d + [s[|s| - 1]]
  }

  ghost predicate Distinct(s: seq<string>)
  {
    forall i, j :: 0 <= i < j < |s| ==> s[i] != s[j]
  }

  /** The index of the first occurrence of x in s. */
  function FirstIndex(s: seq<string>, x: string): (i: nat)
    requires x in s
    ensures i < |s| && s[i] == x && x !in s[..i]
    decreases |s|
  {
    if s[0] == x then 0
    else
      var i := 1 + FirstIndex(s[1..], x);
      assert s[..i] == [s[0]] + s[1..][..i - 1];
      i
  }

  lemma FirstIndexSnoc(s: seq<string>, y: string, x: string)
    requires x in s
    ensures FirstIndex(s + [y], x) == FirstIndex(s, x)
    decreases |s|
  {
    if s[0] != x {
      assert (s + [y])[1..] == s[1..] + [y];
      FirstIndexSnoc(s[1..], y, x);
    }
  }

  lemma OccurrencesSnoc(s: seq<string>, x: string)
    ensures forall y :: Occurrences(s + [x], y) == Occurrences(s, y) + (if x == y then 1 else 0)
  {
    assert (s + [x])[..|s|] == s;
  }

  lemma FirstSeenSnoc(s: seq<string>, x: string)
    ensures FirstSeen(s + [x]) == if x in s then FirstSeen(s) else FirstSeen(s) + [x]
  {
    assert (s + [x])[..|s|] == s;
  }

  /** First-seen order lists no element twice. */
  lemma {:induction false} FirstSeenDistinct(s: seq<string>)
    ensures Distinct(FirstSeen(s))
    decreases |s|
  {
    if s != [] {
      var init := s[..|s| - 1];
      assert s == init + [s[|s| - 1]];
      FirstSeenDistinct(init);
      FirstSeenSnoc(init, s[|s| - 1]);
    }
  }

  /** An element new to s first occurs at the end of s + [x]. */
  lemma FirstIndexNew(s: seq<string>, x: string)
    requires x !in s
    ensures FirstIndex(s + [x], x) == |s|
  {
    assert (s + [x])[..|s|] == s;
  }

  /** First-seen order lists the elements by the position of their first
      occurrence in s. */
  lemma {:induction false} FirstSeenOrdered(s: seq<string>)
    ensures var d := FirstSeen(s);
            forall i, j :: 0 <= i < j < |d| ==> FirstIndex(s, d[i]) < FirstIndex(s, d[j])
    decreases |s|
  {
    if s != [] {
      var init, x := s[..|s| - 1], s[|s| - 1];
      assert s == init + [x];
      FirstSeenOrdered(init);
      FirstSeenSnoc(init, x);
      var d := FirstSeen(init);
      var e := FirstSeen(s);
      assert e[..|d|] == d;
      forall i, j | 0 <= i < j < |e| ensures FirstIndex(s, e[i]) < FirstIndex(s, e[j]) {
        assert e[i] == d[i] && d[i] in init;
        FirstIndexSnoc(init, x, d[i]);
        if j < |d| {
          assert e[j] == d[j] && d[j] in init;
          FirstIndexSnoc(init, x, d[j]);
        } else {
          FirstIndexNew(init, x);
        }
      }
    }
  }

  // ---------------------------------------------------------------------
  // Count mode
  // ---------------------------------------------------------------------

  function GradesOf(sends: seq<Send>): (r: seq<string>)
    ensures |r| == |sends| && forall i :: 0 <= i < |sends| ==> r[i] == sends[i].grade
  {
    seq(|sends|, i requires 0 <= i < |sends| => sends[i].grade)
  }

  lemma GradesOfSnoc(sends: seq<Send>, k: nat)
    requires k < |sends|
    ensures GradesOf(sends[..k + 1]) == GradesOf(sends[..k]) + [sends[k].grade]
  {
  }

  /** The counts summed over a list of grades. */
  function SumCounts(order: seq<string>, s: seq<string>): nat
    decreases |order|
  {
    if order == [] then 0 else SumCounts(order[..|order| - 1], s) + Occurrences(s, order[|order| - 1])
  }

  /** counts holds, for each element of s and for nothing else, the number
      of times it occurs in s. */
  ghost predicate Tally(counts: map<string, nat>, s: seq<string>)
  {
    (forall g :: g in counts <==> g in s)
    && forall g :: g in counts ==> counts[g] == Occurrences(s, g)
  }

  lemma TallySnoc(counts: map<string, nat>, s: seq<string>, g: string)
    requires Tally(counts, s)
    ensures Tally(counts[g := (if g in counts then counts[g] else 0) + 1], s + [g])
  {
    OccurrencesSnoc(s, g);
    if g !in counts {
      OccurrencesAbsent(s, g);
    }
  }

  /** The count loop: counts[g] is the number of sends whose grade is
      exactly g (different strings with the same key are counted apart),
      and gradeOrder lists the grades in first-seen order. */
  method CountGrades(sends: seq<Send>) returns (counts: map<string, nat>, gradeOrder: seq<string>)
    ensures gradeOrder == FirstSeen(GradesOf(sends))
    ensures forall g :: g in counts <==> g in GradesOf(sends)
    ensures forall g :: g in counts ==> counts[g] == Occurrences(GradesOf(sends), g)
  {
    var grades := GradesOf(sends);
    counts := map[];
    gradeOrder := [];
    var seen: set<string> := {};
    for k := 0 to |sends|
      invariant gradeOrder == FirstSeen(grades[..k])
      invariant forall g :: g in seen <==> g in gradeOrder
      invariant Tally(counts, grades[..k])
    {
      var g := sends[k].grade;
      assert grades[..k + 1] == grades[..k] + [g];
      FirstSeenSnoc(grades[..k], g);
      TallySnoc(counts, grades[..k], g);
      counts := counts[g := (if g in counts then counts[g] else 0) + 1];
      if g !in seen {
        gradeOrder := gradeOrder + [g];
        seen := seen + {g};
      }
    }
    assert grades[..|sends|] == grades;
  }

  lemma {:induction false} OccurrencesAbsent(s: seq<string>, x: string)
    requires x !in s
    ensures Occurrences(s, x) == 0
    decreases |s|
  {
    if s != [] {
      OccurrencesAbsent(s[..|s| - 1], x);
    }
  }

  lemma {:induction false} OccurrencesOnce(d: seq<string>, x: string)
    requires Distinct(d) && x in d
    ensures Occurrences(d, x) == 1
    decreases |d|
  {
    var init := d[..|d| - 1];
    if d[|d| - 1] == x {
      OccurrencesAbsent(init, x);
    } else {
      OccurrencesOnce(init, x);
    }
  }

  lemma {:induction false} SumCountsSnoc(order: seq<string>, s: seq<string>, x: string)
    ensures SumCounts(order, s + [x]) == SumCounts(order, s) + Occurrences(order, x)
    decreases |order|
  {
    if order != [] {
      SumCountsSnoc(order[..|order| - 1], s, x);
      OccurrencesSnoc(s, x);
    }
  }

  /** The printed counts add up to the number of sends. */
  lemma {:induction false} CountsSumToTotal(s: seq<string>)
    ensures SumCounts(FirstSeen(s), s) == |s|
    decreases |s|
  {
    if s != [] {
      var init, x := s[..|s| - 1], s[|s| - 1];
      assert s == init + [x];
      CountsSumToTotal(init);
      FirstSeenDistinct(init);
      FirstSeenSnoc(init, x);
      var d := FirstSeen(init);
      SumCountsSnoc(d, init, x);
      if x in d {
        OccurrencesOnce(d, x);
      } else {
        OccurrencesAbsent(d, x);
        OccurrencesAbsent(init, x);
        OccurrencesSnoc(init, x);
        assert (d + [x])[..|d|] == d;
      }
    }
  }

  // ---------------------------------------------------------------------
  // Dates mode
  // ---------------------------------------------------------------------

  /** The non-empty dates of the sends whose grade is exactly `grade`, in
      order and with repeats. */
  function MatchingDates(sends: seq<Send>, grade: string): (r: seq<string>)
    ensures |r| <= |sends|
    ensures forall i :: 0 <= i < |r| ==> r[i] != ""
    decreases |sends|
  {
    if sends == [] then []
    else
      var last := sends[|sends| - 1];
      MatchingDates(sends[..|sends| - 1], grade)
      + (if last.grade == grade && last.date != "" then [last.date] else [])
  }

  ghost predicate DateOf(sends: seq<Send>, grade: string, d: string)
  {
    exists k :: 0 <= k < |sends| && sends[k].grade == grade && sends[k].date == d && d != ""
  }

  lemma {:induction false} MatchingDatesSpec(sends: seq<Send>, grade: string)
    ensures forall d :: d in MatchingDates(sends, grade) <==> DateOf(sends, grade, d)
    decreases |sends|
  {
    if sends != [] {
      var init := sends[..|sends| - 1];
      MatchingDatesSpec(init, grade);
      forall d ensures d in MatchingDates(sends, grade) <==> DateOf(sends, grade, d) {
        if DateOf(sends, grade, d) {
          var k :| 0 <= k < |sends| && sends[k].grade == grade && sends[k].date == d && d != "";
          if k < |init| {
            assert init[k] == sends[k];
          }
        }
        if DateOf(init, grade, d) {
          var k :| 0 <= k < |init| && init[k].grade == grade && init[k].date == d && d != "";
          assert sends[k] == init[k];
        }
      }
    }
  }

  lemma MatchingDatesSnoc(sends: seq<Send>, k: nat, grade: string)
    requires k < |sends|
    ensures MatchingDates(sends[..k + 1], grade) ==
            MatchingDates(sends[..k], grade)
            + (if sends[k].grade == grade && sends[k].date != "" then [sends[k].date] else [])
  {
    assert sends[..k + 1][..k] == sends[..k];
  }

  /** The dates loop: each matching non-empty date once, in first-seen order. */
  method DistinctDates(sends: seq<Send>, grade: string) returns (dates: seq<string>)
    ensures dates == FirstSeen(MatchingDates(sends, grade))
  {
    var dateSet: set<string> := {};
    dates := [];
    for k := 0 to |sends|
      invariant dates == FirstSeen(MatchingDates(sends[..k], grade))
      invariant forall d :: d in dateSet <==> d in dates
    {
      MatchingDatesSnoc(sends, k, grade);
      var send := sends[k];
      if send.grade == grade && send.date != "" {
        assert MatchingDates(sends[..k + 1], grade) == MatchingDates(sends[..k], grade) + [send.date];
        FirstSeenSnoc(MatchingDates(sends[..k], grade), send.date);
        assert send.date in dateSet <==> send.date in MatchingDates(sends[..k], grade);
        if send.date !in dateSet {
          dateSet := dateSet + {send.date};
          dates := dates + [send.date];
        }
      } else {
        assert MatchingDates(sends[..k + 1], grade) == MatchingDates(sends[..k], grade);
      }
    }
    assert sends[..|sends|] == sends;
  }

  /** The comparator of the dates sort. Parsing "2006-01-02" accepts only
      fixed-width digit fields, so for two dates that both parse,
      chronological order is string order, and when either fails the
      comparator falls back to string order: it is string order throughout. */
  lemma DateOrderIsStrictWeakOrder()
    ensures StrictWeakOrder(StrLess)
  {
    forall x: string ensures !StrLess(x, x) {
      StrLessIrreflexive(x);
    }
    forall x: string, y: string, z: string ensures TransitiveAt(StrLess, x, y, z) {
      if StrLess(x, y) && StrLess(y, z) {
        StrLessTransitive(x, y, z);
      }
    }
    forall x: string, y: string, z: string ensures NegTransitiveAt(StrLess, x, y, z) {
      if x != y {
        StrLessTotal(x, y);
        if StrLess(y, x) && StrLess(x, z) {
          StrLessTransitive(y, x, z);
        }
      }
    }
  }

  ghost predicate StrictlyIncreasing(s: seq<string>)
  {
    forall i, j :: 0 <= i < j < |s| ==> StrLess(s[i], s[j])
  }

  lemma {:induction false} DistinctAtMostOnce(d: seq<string>, x: string)
    requires Distinct(d)
    ensures multiset(d)[x] <= 1
    decreases |d|
  {
    if d != [] {
      var init := d[..|d| - 1];
      assert d == init + [d[|d| - 1]];
      DistinctAtMostOnce(init, x);
      if d[|d| - 1] == x {
        assert x !in init;
      }
    }
  }

  /** A value found at two positions occurs at least twice. */
  lemma RepeatedInMultiset(r: seq<string>, i: nat, j: nat)
    requires i < j < |r| && r[i] == r[j]
    ensures multiset(r)[r[i]] >= 2
  {
    assert r == r[..j] + [r[j]] + r[j + 1..];
    assert r[i] in r[..j];
  }

  /** A sorted permutation of distinct strings is strictly increasing. */
  lemma SortedDistinctIncreasing(d: seq<string>, r: seq<string>)
    requires Distinct(d) && multiset(r) == multiset(d) && Sorted(StrLess, r)
    ensures StrictlyIncreasing(r)
  {
    forall i, j | 0 <= i < j < |r| ensures StrLess(r[i], r[j]) {
      assert InOrderAt(StrLess, r, i, j);
      if r[i] == r[j] {
        RepeatedInMultiset(r, i, j);
        DistinctAtMostOnce(d, r[i]);
      }
      StrLessTotal(r[i], r[j]);
    }
  }

  lemma TailMembers(s: seq<string>, x: string)
    requires StrictlyIncreasing(s) && s != []
    ensures x in s[1..] <==> x in s && x != s[0]
  {
    if x in s[1..] {
      var k :| 0 <= k < |s[1..]| && s[1..][k] == x;
      assert StrLess(s[0], s[k + 1]);
      StrLessIrreflexive(x);
    }
    if x in s && x != s[0] {
      var k :| 0 <= k < |s| && s[k] == x;
      assert s[1..][k - 1] == x;
    }
  }

  /** Two strictly increasing sequences with the same elements are equal:
      the dates come out the same whichever sorting algorithm is used, so
      the unstable sort.Slice may be modelled by the stable sort. */
  lemma {:induction false} StrictlyIncreasingUnique(s: seq<string>, t: seq<string>)
    requires StrictlyIncreasing(s) && StrictlyIncreasing(t)
    requires forall x :: x in s <==> x in t
    ensures s == t
    decreases |s|
  {
    if s != [] {
      assert s[0] in t;
    }
    if t != [] {
      assert t[0] in s;
    }
    if s != [] && t != [] {
      var i :| 0 <= i < |t| && t[i] == s[0];
      var j :| 0 <= j < |s| && s[j] == t[0];
      if s[0] != t[0] {
        assert StrLess(t[0], s[0]) by { assert i > 0; }
        assert StrLess(s[0], t[0]) by { assert j > 0; }
        StrLessAsymmetric(s[0], t[0]);
      }
      forall x ensures x in s[1..] <==> x in t[1..] {
        TailMembers(s, x);
        TailMembers(t, x);
      }
      StrictlyIncreasingUnique(s[1..], t[1..]);
    }
  }

  /** sort.Slice on distinct dates: the result holds the same dates in
      strictly increasing order. */
  method SortDates(dates: seq<string>) returns (sorted: seq<string>)
    requires Distinct(dates)
    ensures forall d :: d in sorted <==> d in dates
    ensures StrictlyIncreasing(sorted)
  {
    var a := new string[|dates|](i requires 0 <= i < |dates| => dates[i]);
    assert a[..] == dates;
    DateOrderIsStrictWeakOrder();
    InsertionSortInPlace(a, StrLess);
    sorted := a[..];
    InsertionSortPermutes(StrLess, dates);
    InsertionSortSorted(StrLess, dates);
    SortedDistinctIncreasing(dates, sorted);
    forall d ensures d in sorted <==> d in dates {
      assert d in sorted <==> d in multiset(sorted);
      assert d in dates <==> d in multiset(dates);
    }
  }

  /** Dates mode: the result holds exactly the distinct non-empty dates of
      the sends whose grade equals `grade`, in strictly increasing order (so
      with no duplicates). */
  method CollectDates(sends: seq<Send>, grade: string) returns (dates: seq<string>)
    ensures forall d :: d in dates <==> DateOf(sends, grade, d)
    ensures StrictlyIncreasing(dates)
  {
    var distinct := DistinctDates(sends, grade);
    FirstSeenDistinct(MatchingDates(sends, grade));
    MatchingDatesSpec(sends, grade);
    dates := SortDates(distinct);
  }

  // ---------------------------------------------------------------------
  // Output
  // ---------------------------------------------------------------------

  /** A list-mode line: color, grade and meta with no separator, so that
      cutting it at the lengths of the first two gives back all three. */
  function SendLine(s: Send): (line: string)
    ensures |line| == |s.color| + |s.grade| + |s.meta|
    ensures line[..|s.color|] == s.color
    ensures line[|s.color|..|s.color| + |s.grade|] == s.grade
    ensures line[|s.color| + |s.grade|..] == s.meta
  {
    s.color + s.grade + s.meta
  }

  /** The line printed for a send string the pattern matches is the matched
      part of that string: whatever precedes the color group is dropped, and
      the rest of the string is printed as it was written. */
  lemma SendLineOfMatch(sendStr: string, date: string)
    requires HasGradeChar(sendStr)
    ensures Locate(sendStr).Some?
    ensures var sp := Locate(sendStr).value;
            SendLine(ParseSend(sendStr, date)[0]) == sendStr[sp.start..sp.metaEnd]
  {
    assert Split(sendStr).Some?;
    var sp := Locate(sendStr).value;
    assert sendStr[sp.start..sp.metaEnd]
           == sendStr[sp.start..sp.colorEnd] + sendStr[sp.colorEnd..sp.gradeEnd] + sendStr[sp.gradeEnd..sp.metaEnd];
  }

  function ListLines(sends: seq<Send>): (r: seq<string>)
    ensures |r| == |sends| && forall i :: 0 <= i < |sends| ==> r[i] == SendLine(sends[i])
  {
    seq(|sends|, i requires 0 <= i < |sends| => SendLine(sends[i]))
  }

  function Spaces(n: nat): string { seq(n, _ => ' ') }

  /** s without its leading spaces. */
  function TrimLeft(s: string): (t: string)
    ensures |t| <= |s| && t == s[|s| - |t|..]
    ensures t == [] || t[0] != ' '
    ensures forall i :: 0 <= i < |s| - |t| ==> s[i] == ' '
    decreases |s|
  {
    if s != [] && s[0] == ' ' then TrimLeft(s[1..]) else s
  }

  lemma {:induction false} TrimLeftSpaces(n: nat, d: string)
    requires d == [] || d[0] != ' '
    ensures TrimLeft(Spaces(n) + d) == d
    decreases n
  {
    var s := Spaces(n) + d;
    if n == 0 {
      assert s == d;
    } else {
      assert s[0] == ' ';
      assert s[1..] == Spaces(n - 1) + d;
      TrimLeftSpaces(n - 1, d);
    }
  }

  /** line reads as "%7d %s" of count and grade: a field, a space, then the
      grade. The field is spaces followed by the count's numeral, which has
      no leading zero, and it is seven columns wide unless the numeral is
      longer, when it is exactly the numeral. */
  predicate ReadsAsCount(line: string, count: nat, grade: string)
  {
    var w := |line| - |grade| - 1;
    && 0 <= w && line[w] == ' ' && line[w + 1..] == grade
    && var digits := TrimLeft(line[..w]);
       && w == (if |digits| < 7 then 7 else |digits|)
       && AllDigits(digits) && |digits| > 0 && (|digits| == 1 || digits[0] != '0')
       && DigitsValue(digits) == count
  }

  lemma PaddedReadsAsCount(pad: nat, count: nat, grade: string)
    requires pad == if |DecimalString(count)| < 7 then 7 - |DecimalString(count)| else 0
    ensures ReadsAsCount(Spaces(pad) + DecimalString(count) + " " + grade, count, grade)
  {
    var digits := DecimalString(count);
    var field := Spaces(pad) + digits;
    var line := field + " " + grade;
    assert |line| - |grade| - 1 == |field|;
    assert line[..|field|] == field;
    assert line[|field|] == ' ' && line[|field| + 1..] == grade;
    TrimLeftSpaces(pad, digits);
    DecimalStringValue(count);
  }

  /** "%7d %s": the count right-aligned in seven columns, a space, the grade. */
  function CountLine(count: nat, grade: string): (line: string)
    ensures ReadsAsCount(line, count, grade)
    ensures var n := |DecimalString(count)|; |line| == (if n < 7 then 7 else n) + 1 + |grade|
  {
    var digits := DecimalString(count);
    var pad := if |digits| < 7 then 7 - |digits| else 0;
    PaddedReadsAsCount(pad, count, grade);
    Spaces(pad) + digits + " " + grade
  }

  /** The count lines for the grades in `order`, each with its number of
      occurrences in `grades`. */
  function CountLines(order: seq<string>, grades: seq<string>): (r: seq<string>)
    ensures |r| == |order|
    ensures forall i :: 0 <= i < |order| ==> r[i] == CountLine(Occurrences(grades, order[i]), order[i])
    decreases |order|
  {
    if order == [] then []
    else
      var g := order[|order| - 1];
      CountLines(order[..|order| - 1], grades) + [CountLine(Occurrences(grades, g), g)]
  }

  lemma CountLinesSnoc(order: seq<string>, grades: seq<string>, i: nat)
    requires i < |order|
    ensures CountLines(order[..i + 1], grades)
         == CountLines(order[..i], grades) + [CountLine(Occurrences(grades, order[i]), order[i])]
  {
    assert order[..i + 1][..i] == order[..i];
  }

  /** Count mode: one line per distinct grade, in first-seen order, with the
      number of sends carrying exactly that grade. */
  method CountReport(sends: seq<Send>) returns (output: seq<string>)
    ensures output == CountLines(FirstSeen(GradesOf(sends)), GradesOf(sends))
  {
    var counts, gradeOrder := CountGrades(sends);
    ghost var grades := GradesOf(sends);
    output := [];
    for i := 0 to |gradeOrder|
      invariant output == CountLines(gradeOrder[..i], grades)
    {
      var g := gradeOrder[i];
      assert g in grades;
      CountLinesSnoc(gradeOrder, grades, i);
      output := output + [CountLine(counts[g], g)];
    }
    assert gradeOrder[..|gradeOrder|] == gradeOrder;
  }

  /** The report modes; a dates grade takes precedence over the count flag. */
  datatype Mode = ListMode | CountMode | DatesMode(grade: string)

  function SelectMode(countMode: bool, datesGrade: string): (m: Mode)
    ensures m.DatesMode? <==> datesGrade != ""
    ensures m.DatesMode? ==> m.grade == datesGrade
    ensures m == CountMode <==> datesGrade == "" && countMode
    ensures m == ListMode <==> datesGrade == "" && !countMode
  {
    if datesGrade != "" then DatesMode(datesGrade)
    else if countMode then CountMode
    else ListMode
  }

  /** The whole run once the documents are decoded: collect, sort stably,
      then report in the selected mode. */
  method Run(docs: seq<Option<Frontmatter>>, countMode: bool, datesGrade: string)
    returns (output: seq<string>)
    ensures var sorted := InsertionSort(SendLess, AllSends(docs));
            match SelectMode(countMode, datesGrade)
            case ListMode => output == ListLines(sorted)
            case CountMode => output == CountLines(FirstSeen(GradesOf(sorted)), GradesOf(sorted))
            case DatesMode(g) =>
              StrictlyIncreasing(output) && forall d :: d in output <==> DateOf(sorted, g, d)
  {
    var collected := CollectSends(docs);
    var a := new Send[|collected|](i requires 0 <= i < |collected| => collected[i]);
    assert a[..] == collected;
    SortSends(a);
    var sorted := a[..];
    match SelectMode(countMode, datesGrade)
    case DatesMode(g) =>
      output := CollectDates(sorted, g);
    case CountMode =>
      output := CountReport(sorted);
    case ListMode =>
      output := ListLines(sorted);
  }
}
