/** GradeDetails: the percentage a grade stands for, and grade equality. Scores are
    reals here; the floating-point rounding of the double arithmetic is not modelled. */
module GradeDetails {
  import opened Entities

  /** getPercentage: the score as a percentage of the maximum score, 0 when the maximum
      is not positive. */
  function Percentage(g: Grade): (r: real)
    ensures g.maxScore > 0.0 ==> r * g.maxScore == g.score * 100.0
    ensures g.maxScore <= 0.0 ==> r == 0.0
  {
    if g.maxScore > 0.0 then (g.score / g.maxScore) * 100.0 else 0.0
  }

  /** A score of 0 is 0 percent, and a full score is 100 percent, whenever the maximum is
      positive. */
  lemma PercentageEnds(g: Grade)
    requires g.maxScore > 0.0
    ensures g.score == 0.0 ==> Percentage(g) == 0.0
    ensures g.score == g.maxScore ==> Percentage(g) == 100.0
  {
    var r, m := Percentage(g), g.maxScore;
    ScaleSign(r, m);
    ScaleSign(r - 100.0, m);
  }

  /** A score between 0 and the maximum gives a percentage between 0 and 100, and a
      higher score of the same maximum never gives a lower percentage. */
  lemma PercentageBounds(g: Grade, h: Grade)
    requires g.maxScore > 0.0 && h.maxScore == g.maxScore
    ensures 0.0 <= g.score <= g.maxScore ==> 0.0 <= Percentage(g) <= 100.0
    ensures g.score <= h.score ==> Percentage(g) <= Percentage(h)
  {
    var m := g.maxScore;
    var r, q := Percentage(g), Percentage(h);
    ScaleSign(r, m);
    ScaleSign(r - 100.0, m);
    ScaleSign(r - q, m);
  }

  /** Multiplying by a positive number keeps the sign. */
  lemma ScaleSign(x: real, m: real)
    requires m > 0.0
    ensures x * m > 0.0 <==> x > 0.0
    ensures x * m == 0.0 <==> x == 0.0
  {
  }

  /** The object a grade is compared with in equals: another grade, an object of some
      other class, or null. */
  datatype Compared = AGrade(grade: Grade) | OtherObject | Null

  /** equals: true for another grade with the same id, whatever its other fields; false
      for null and for objects of another class. (The same object has the same id.) */
  function GradeEquals(g: Grade, other: Compared): (r: bool)
    ensures r <==> other.AGrade? && other.grade.id == g.id
  {
    match other
    case AGrade(h) => g.id == h.id
    case _ => false
  }

  /** Grade equality is an equivalence that ignores every field but the id. */
  lemma GradeEqualsEquivalence(a: Grade, b: Grade, c: Grade)
    ensures GradeEquals(a, AGrade(a))
    ensures GradeEquals(a, AGrade(b)) == GradeEquals(b, AGrade(a))
    ensures GradeEquals(a, AGrade(b)) && GradeEquals(b, AGrade(c)) ==> GradeEquals(a, AGrade(c))
    ensures GradeEquals(a, AGrade(b)) ==> GradeEquals(a.(score := b.score, maxScore := b.maxScore), AGrade(b))
    ensures !GradeEquals(a, Null) && !GradeEquals(a, OtherObject)
  {
  }
}
