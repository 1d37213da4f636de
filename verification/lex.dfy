/**
 * Byte-wise string order. Go compares strings byte by byte over their UTF-8
 * encoding, which orders strings exactly as comparing their code points one
 * by one does; Dafny's own `<` on sequences is "proper prefix", so the order
 * is written out here.
 */
module Lex {

  /** The lexicographic order, stated directly: a and b agree on a common
      prefix of length k, after which either a ends while b goes on, or a
      has the smaller character. */
  ghost predicate LexBefore(a: string, b: string)
  {
    exists k :: 0 <= k <= |a| && k < |b| && a[..k] == b[..k] && (k == |a| || a[k] < b[k])
  }

  /** a sorts strictly before b, comparing one character at a time. */
  predicate StrLess(a: string, b: string)
    ensures StrLess(a, b) <==> LexBefore(a, b)
    decreases |a|
  {
    if |a| == 0 || |b| == 0 || a[0] != b[0] then
      LexBeforeHead(a, b);
      if |a| == 0 then |b| > 0 else if |b| == 0 then false else a[0] < b[0]
    else
      LexBeforeCons(a, b);
      StrLess(a[1..], b[1..])
  }

  /** When the strings differ at their first position (or one is empty),
      that position decides the order. */
  lemma LexBeforeHead(a: string, b: string)
    requires |a| == 0 || |b| == 0 || a[0] != b[0]
    ensures LexBefore(a, b) <==> if |a| == 0 then |b| > 0 else |b| > 0 && a[0] < b[0]
  {
    if |b| > 0 && (|a| == 0 || a[0] < b[0]) {
      assert a[..0] == b[..0];
    }
  }

  /** A common first character does not decide the order: the rest does. */
  lemma LexBeforeCons(a: string, b: string)
    requires |a| > 0 && |b| > 0 && a[0] == b[0]
    ensures LexBefore(a, b) <==> LexBefore(a[1..], b[1..])
  {
    if LexBefore(a, b) {
      var k :| 0 <= k <= |a| && k < |b| && a[..k] == b[..k] && (k == |a| || a[k] < b[k]);
      LexBeforeDrop(a, b, k);
    }
    if LexBefore(a[1..], b[1..]) {
      var k :| 0 <= k <= |a[1..]| && k < |b[1..]| && a[1..][..k] == b[1..][..k]
               && (k == |a[1..]| || a[1..][k] < b[1..][k]);
      LexBeforeAdd(a, b, k);
    }
  }

  lemma LexBeforeDrop(a: string, b: string, k: nat)
    requires |a| > 0 && |b| > 0 && a[0] == b[0]
    requires k <= |a| && k < |b| && a[..k] == b[..k] && (k == |a| || a[k] < b[k])
    ensures LexBefore(a[1..], b[1..])
  {
    assert k > 0;
    assert a[1..][..k - 1] == a[..k][1..] && b[1..][..k - 1] == b[..k][1..];
    assert k - 1 == |a[1..]| || a[1..][k - 1] < b[1..][k - 1];
  }

  lemma LexBeforeAdd(a: string, b: string, k: nat)
    requires |a| > 0 && |b| > 0 && a[0] == b[0]
    requires k <= |a[1..]| && k < |b[1..]| && a[1..][..k] == b[1..][..k]
    requires k == |a[1..]| || a[1..][k] < b[1..][k]
    ensures LexBefore(a, b)
  {
    assert a[..k + 1] == [a[0]] + a[1..][..k] && b[..k + 1] == [b[0]] + b[1..][..k];
    assert k + 1 == |a| || a[k + 1] < b[k + 1];
  }

  lemma {:induction false} StrLessIrreflexive(a: string)
    ensures !StrLess(a, a)
    decreases |a|
  {
    if |a| > 0 {
      StrLessIrreflexive(a[1..]);
    }
  }

  lemma {:induction false} StrLessTransitive(a: string, b: string, c: string)
    requires StrLess(a, b) && StrLess(b, c)
    ensures StrLess(a, c)
    decreases |a|
  {
    if |a| > 0 && a[0] == b[0] && b[0] == c[0] {
      StrLessTransitive(a[1..], b[1..], c[1..]);
    }
  }

  /** Any two different strings are ordered one way or the other. */
  lemma {:induction false} StrLessTotal(a: string, b: string)
    requires a != b
    ensures StrLess(a, b) || StrLess(b, a)
    decreases |a|
  {
    if |a| > 0 && |b| > 0 && a[0] == b[0] {
      assert a == [a[0]] + a[1..] && b == [b[0]] + b[1..];
      StrLessTotal(a[1..], b[1..]);
    }
  }

  lemma StrLessAsymmetric(a: string, b: string)
    requires StrLess(a, b)
    ensures !StrLess(b, a)
  {
    if StrLess(b, a) {
      StrLessTransitive(a, b, a);
      StrLessIrreflexive(a);
    }
  }
}
