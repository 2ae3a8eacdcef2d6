/** The grade threshold check of the prerequisite gate: `grade__lte=minimum_grade`
    compares grade strings as the database compares text, character by character
    by code point, with a proper prefix sorting first. */
module Grades {

  /** `a <= b` in the database's binary string order. */
  predicate AtMost(a: string, b: string)
  {
    if |a| == 0 then true
    else if |b| == 0 then false
    else if a[0] != b[0] then a[0] < b[0]
    else AtMost(a[1..], b[1..])
  }

  lemma {:induction false} AtMostReflexive(a: string)
    ensures AtMost(a, a)
  {
    if |a| > 0 {
      AtMostReflexive(a[1..]);
    }
  }

  lemma {:induction false} AtMostTotal(a: string, b: string)
    ensures AtMost(a, b) || AtMost(b, a)
  {
    if |a| > 0 && |b| > 0 && a[0] == b[0] {
      AtMostTotal(a[1..], b[1..]);
    }
  }

  lemma {:induction false} AtMostAntisymmetric(a: string, b: string)
    requires AtMost(a, b) && AtMost(b, a)
    ensures a == b
  {
    if |a| > 0 && |b| > 0 {
      AtMostAntisymmetric(a[1..], b[1..]);
      assert a == [a[0]] + a[1..] && b == [b[0]] + b[1..];
    }
  }

  lemma {:induction false} AtMostTransitive(a: string, b: string, c: string)
    requires AtMost(a, b) && AtMost(b, c)
    ensures AtMost(a, c)
  {
    if |a| > 0 && |b| > 0 && |c| > 0 && a[0] == b[0] && b[0] == c[0] {
      AtMostTransitive(a[1..], b[1..], c[1..]);
    }
  }

  /** The blank grade ("no grade yet") sorts before every threshold, so it passes. */
  lemma BlankGradePasses(threshold: string)
    ensures AtMost("", threshold)
  {
  }

  /** The letter grades of the grading scale, best first. */
  predicate IsLetterGrade(g: string)
  {
    g == "A" || g == "B" || g == "C" || g == "D" || g == "F"
  }

  /** The academic rank of a letter grade: 0 for A (best) up to 4 for F. */
  function Rank(g: string): (r: nat)
    requires IsLetterGrade(g)
    ensures r <= 4
  {
    if g == "A" then 0 else if g == "B" then 1 else if g == "C" then 2 else if g == "D" then 3 else 4
  }

  /** On the letter scale the text order is the academic order: a grade passes a
      threshold exactly when it is at least as good as the threshold. */
  lemma LetterOrderIsAcademic(g: string, threshold: string)
    requires IsLetterGrade(g) && IsLetterGrade(threshold)
    ensures AtMost(g, threshold) <==> Rank(g) <= Rank(threshold)
  {
  }

  /** A one-letter threshold admits the blank grade, every grade whose first letter
      sorts before it, and the threshold letter alone; "IP" does not pass "I". */
  lemma {:induction false} SingleLetterThreshold(g: string, c: char)
    ensures AtMost(g, [c]) <==> |g| == 0 || g[0] < c || (g[0] == c && |g| == 1)
  {
    if |g| > 0 && g[0] == c {
      assert [c][1..] == [];
    }
  }
}
