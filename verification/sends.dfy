/**
 * Send records: how the decoded frontmatter of each index.md becomes a list
 * of sends, and the order in which the sends are sorted.
 */
module Sends {
  import opened Wrappers
  import opened Grades
  import opened SendPattern
  import opened Lex
  import opened StableSort

  /** One logged send. Its grade is always a token the pattern captured. */
  datatype Send = Send(color: string, grade: GradeToken, meta: string, date: string)

  /** The decoded frontmatter of one document: its date and send strings. */
  datatype Frontmatter = Frontmatter(date: string, sends: seq<string>)

  /** A send string whose split succeeds becomes a record carrying the
      document's date. */
  function ParseSend(sendStr: string, date: string): (r: seq<Send>)
    ensures |r| <= 1
    ensures r != [] <==> HasGradeChar(sendStr)
    ensures r != [] ==> r[0].date == date && Split(sendStr) == Some(Groups(r[0].color, r[0].grade, r[0].meta))
  {
    match Split(sendStr)
    case None => []
    case Some(g) => [Send(g.color, g.grade, g.meta, date)]
  }

  /** The records of one document, in the order of its send strings. */
  function DocSends(strs: seq<string>, date: string): (r: seq<Send>)
    ensures |r| <= |strs|
    ensures forall k :: 0 <= k < |r| ==> r[k].date == date
    decreases |strs|
  {
    if strs == [] then []
    else DocSends(strs[..|strs| - 1], date) + ParseSend(strs[|strs| - 1], date)
  }

  /** The records of all documents in walk order; a document whose
      frontmatter failed to decode (None) contributes nothing. */
  function AllSends(docs: seq<Option<Frontmatter>>): (r: seq<Send>)
    ensures forall k :: 0 <= k < |r| ==>
              exists d :: 0 <= d < |docs| && docs[d].Some?
                          && r[k] in DocSends(docs[d].value.sends, docs[d].value.date)
    decreases |docs|
  {
    if docs == [] then []
    else
      var init := docs[..|docs| - 1];
      var last := PageSends(docs[|docs| - 1]);
      assert forall d :: 0 <= d < |init| ==> init[d] == docs[d];
      assert docs[|docs| - 1].Some? ==> last == DocSends(docs[|docs| - 1].value.sends, docs[|docs| - 1].value.date);
      assert docs[|docs| - 1].None? ==> last == [];
      AllSends(init) + last
  }

  /** The records of one document, or none if it failed to decode. */
  function PageSends(p: Option<Frontmatter>): seq<Send>
  {
    match p
    case None => []
    case Some(fm) => DocSends(fm.sends, fm.date)
  }

  /** How many of the strings hold a grade character. */
  function CountGraded(strs: seq<string>): nat
    decreases |strs|
  {
    if strs == [] then 0
    else CountGraded(strs[..|strs| - 1]) + (if HasGradeChar(strs[|strs| - 1]) then 1 else 0)
  }

  /** A document gives one record per send string that holds a grade
      character, each carrying the document's date and the groups of the
      string it came from. */
  lemma {:induction false} DocSendsShape(strs: seq<string>, date: string)
    ensures |DocSends(strs, date)| == CountGraded(strs)
    ensures forall k :: 0 <= k < |DocSends(strs, date)| ==>
              var r := DocSends(strs, date)[k];
              r.date == date
              && exists i :: 0 <= i < |strs| && Split(strs[i]) == Some(Groups(r.color, r.grade, r.meta))
    decreases |strs|
  {
    if strs != [] {
      var init, last := strs[..|strs| - 1], strs[|strs| - 1];
      assert strs == init + [last];
      DocSendsShape(init, date);
      DocSendsSnoc(init, last, date);
      RecordsSnoc(DocSends(init, date), init, last, date);
    }
  }

  /** The step of DocSendsShape: records that each come from one of the
      strings of init still do once the record of last is added. */
  lemma RecordsSnoc(prev: seq<Send>, init: seq<string>, last: string, date: string)
    requires forall k :: 0 <= k < |prev| ==>
               prev[k].date == date
               && exists i :: 0 <= i < |init| && Split(init[i]) == Some(Groups(prev[k].color, prev[k].grade, prev[k].meta))
    ensures forall k :: 0 <= k < |prev + ParseSend(last, date)| ==>
              var r := (prev + ParseSend(last, date))[k];
              r.date == date
              && exists i :: 0 <= i < |init + [last]| && Split((init + [last])[i]) == Some(Groups(r.color, r.grade, r.meta))
  {
    var all, strs := prev + ParseSend(last, date), init + [last];
    forall k | 0 <= k < |all|
      ensures all[k].date == date
      ensures exists i :: 0 <= i < |strs| && Split(strs[i]) == Some(Groups(all[k].color, all[k].grade, all[k].meta))
    {
      if k < |prev| {
        assert all[k] == prev[k];
        var i :| 0 <= i < |init| && Split(init[i]) == Some(Groups(prev[k].color, prev[k].grade, prev[k].meta));
        assert strs[i] == init[i];
      } else {
        assert strs[|strs| - 1] == last;
      }
    }
  }

  /** Concatenation regroups freely. */
  lemma AppendAssoc<T>(x: seq<T>, y: seq<T>, z: seq<T>)
    ensures x + y + z == x + (y + z)
  {
  }

  /** One more send string adds its own record, if any, at the end. */
  lemma DocSendsSnoc(strs: seq<string>, x: string, date: string)
    ensures DocSends(strs + [x], date) == DocSends(strs, date) + ParseSend(x, date)
  {
    assert (strs + [x])[..|strs|] == strs;
  }

  /** A page's records split at any point between its send strings. */
  lemma {:induction false} DocSendsAppend(a: seq<string>, b: seq<string>, date: string)
    ensures DocSends(a + b, date) == DocSends(a, date) + DocSends(b, date)
    decreases |b|
  {
    if b == [] {
      assert a + b == a;
    } else {
      var init, x := b[..|b| - 1], b[|b| - 1];
      assert b == init + [x] && a + b == (a + init) + [x];
      calc {
        DocSends(a + b, date);
        { DocSendsSnoc(a + init, x, date); }
        DocSends(a + init, date) + ParseSend(x, date);
        { DocSendsAppend(a, init, date); }
        DocSends(a, date) + DocSends(init, date) + ParseSend(x, date);
        { AppendAssoc(DocSends(a, date), DocSends(init, date), ParseSend(x, date)); }
        DocSends(a, date) + (DocSends(init, date) + ParseSend(x, date));
        { DocSendsSnoc(init, x, date); }
        DocSends(a, date) + DocSends(b, date);
      }
    }
  }

  /** Completeness and order within a page: the i-th send string, when it
      holds a grade character, yields the record that comes after those of
      the graded strings before it. */
  lemma DocSendsAt(strs: seq<string>, date: string, i: nat)
    requires i < |strs| && HasGradeChar(strs[i])
    ensures CountGraded(strs[..i]) < |DocSends(strs, date)|
    ensures DocSends(strs, date)[CountGraded(strs[..i])] == ParseSend(strs[i], date)[0]
  {
    var before, after := strs[..i], strs[i + 1..];
    assert DocSends([strs[i]], date) == ParseSend(strs[i], date) by {
      assert [strs[i]][..0] == [];
    }
    assert strs == before + [strs[i]] + after;
    DocSendsAppend(before, [strs[i]], date);
    DocSendsAppend(before + [strs[i]], after, date);
    DocSendsShape(before, date);
  }

  /** One more page adds its own records at the end. */
  lemma AllSendsSnoc(docs: seq<Option<Frontmatter>>, p: Option<Frontmatter>)
    ensures AllSends(docs + [p]) == AllSends(docs) + PageSends(p)
  {
    assert (docs + [p])[..|docs|] == docs;
  }

  /** The walk's records split at any point between pages. */
  lemma {:induction false} AllSendsAppend(a: seq<Option<Frontmatter>>, b: seq<Option<Frontmatter>>)
    ensures AllSends(a + b) == AllSends(a) + AllSends(b)
    decreases |b|
  {
    if b == [] {
      assert a + b == a;
    } else {
      var init, p := b[..|b| - 1], b[|b| - 1];
      assert b == init + [p] && a + b == (a + init) + [p];
      calc {
        AllSends(a + b);
        { AllSendsSnoc(a + init, p); }
        AllSends(a + init) + PageSends(p);
        { AllSendsAppend(a, init); }
        AllSends(a) + AllSends(init) + PageSends(p);
        { AppendAssoc(AllSends(a), AllSends(init), PageSends(p)); }
        AllSends(a) + (AllSends(init) + PageSends(p));
        { AllSendsSnoc(init, p); }
        AllSends(a) + AllSends(b);
      }
    }
  }

  /** One page on its own: its records, or none if it failed to decode. */
  lemma AllSendsOne(p: Option<Frontmatter>)
    ensures AllSends([p]) == if p.Some? then DocSends(p.value.sends, p.value.date) else []
  {
    assert [p][..0] == [];
  }

  /** The directory walk's collection: for each decoded document in walk
      order, the record of every send string the pattern matches. */
  method CollectSends(docs: seq<Option<Frontmatter>>) returns (sends: seq<Send>)
    ensures sends == AllSends(docs)
  {
    sends := [];
    for d := 0 to |docs|
      invariant sends == AllSends(docs[..d])
    {
      assert docs[..d + 1][..d] == docs[..d];
      match docs[d]
      case None =>
      case Some(fm) =>
        var docSends := CollectDocSends(fm.sends, fm.date);
        sends := sends + docSends;
    }
    assert docs[..|docs|] == docs;
  }

  /** The inner loop over one document's send strings. */
  method CollectDocSends(strs: seq<string>, date: string) returns (sends: seq<Send>)
    ensures sends == DocSends(strs, date)
  {
    sends := [];
    for k := 0 to |strs|
      invariant sends == DocSends(strs[..k], date)
    {
      assert strs[..k + 1][..k] == strs[..k];
      var m := Split(strs[k]);
      if m.Some? {
        sends := sends + [Send(m.value.color, m.value.grade, m.value.meta, date)];
      }
    }
    assert strs[..|strs|] == strs;
  }

  // ---------------------------------------------------------------------
  // The SliceStable comparator
  // ---------------------------------------------------------------------

  /** Sorts by grade key, then by color: a lower key always sorts first,
      a higher key never does. */
  predicate SendLess(x: Send, y: Send)
    ensures GradeKey(x.grade) < GradeKey(y.grade) ==> SendLess(x, y)
    ensures SendLess(x, y) ==> GradeKey(x.grade) <= GradeKey(y.grade)
  {
    var gx := GradeKey(x.grade);
    var gy := GradeKey(y.grade);
    if gx != gy then gx < gy else StrLess(x.color, y.color)
  }

  /** Two sends the sort must keep in their original order are exactly
      those with the same grade key and the same color. */
  lemma SendEquivalent(x: Send, y: Send)
    ensures Equivalent(SendLess, x, y) <==> GradeKey(x.grade) == GradeKey(y.grade) && x.color == y.color
  {
    if x.color != y.color {
      StrLessTotal(x.color, y.color);
    } else {
      StrLessIrreflexive(x.color);
    }
  }

  /** The comparator is a strict weak order, as sort.SliceStable needs. */
  lemma SendLessIsStrictWeakOrder()
    ensures StrictWeakOrder(SendLess)
  {
    forall x: Send ensures !SendLess(x, x) {
      StrLessIrreflexive(x.color);
    }
    forall x: Send, y: Send, z: Send ensures TransitiveAt(SendLess, x, y, z) {
      if SendLess(x, y) && SendLess(y, z)
         && GradeKey(x.grade) == GradeKey(y.grade) == GradeKey(z.grade) {
        StrLessTransitive(x.color, y.color, z.color);
      }
    }
    forall x: Send, y: Send, z: Send ensures NegTransitiveAt(SendLess, x, y, z) {
      if x.color != y.color {
        StrLessTotal(x.color, y.color);
        if StrLess(y.color, x.color) && StrLess(x.color, z.color) {
          StrLessTransitive(y.color, x.color, z.color);
        }
      }
    }
  }

  /** What the sorted sends satisfy: a permutation of the input,
      non-decreasing by grade key and then by color, and every group of
      sends with equal key and color in its original relative order. */
  lemma SortedSends(s: seq<Send>)
    ensures multiset(InsertionSort(SendLess, s)) == multiset(s)
    ensures var r := InsertionSort(SendLess, s);
            forall i, j :: 0 <= i < j < |r| ==>
              GradeKey(r[i].grade) < GradeKey(r[j].grade)
              || (GradeKey(r[i].grade) == GradeKey(r[j].grade) && !StrLess(r[j].color, r[i].color))
    ensures forall y :: ClassOf(SendLess, InsertionSort(SendLess, s), y) == ClassOf(SendLess, s, y)
  {
    SendLessIsStrictWeakOrder();
    InsertionSortPermutes(SendLess, s);
    InsertionSortSorted(SendLess, s);
    var r := InsertionSort(SendLess, s);
    forall i, j | 0 <= i < j < |r|
      ensures GradeKey(r[i].grade) < GradeKey(r[j].grade)
              || (GradeKey(r[i].grade) == GradeKey(r[j].grade) && !StrLess(r[j].color, r[i].color))
    {
      assert InOrderAt(SendLess, r, i, j);
    }
    forall y ensures ClassOf(SendLess, InsertionSort(SendLess, s), y) == ClassOf(SendLess, s, y) {
      InsertionSortStable(SendLess, s, y);
    }
  }

  /** sort.SliceStable(sends, ...) */
  method SortSends(a: array<Send>)
    modifies a
    ensures a[..] == InsertionSort(SendLess, old(a[..]))
    ensures multiset(a[..]) == multiset(old(a[..]))
    ensures forall y :: ClassOf(SendLess, a[..], y) == ClassOf(SendLess, old(a[..]), y)
  {
    SendLessIsStrictWeakOrder();
    InsertionSortInPlace(a, SendLess);
    SortedSends(old(a[..]));
  }
}
