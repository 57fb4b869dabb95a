/** The match percentage both matchers compute, `len(a) / len(b) * 100`, as an
    exact rational instead of a rounded float. */
module Scoring {
  import opened Lists

  /** A match score held exactly, as the two counts it is computed from:
      `matched` distinct shared skills over a skill list of length `total`. */
  datatype Score = Score(matched: nat, total: nat)

  /** The percentage a score stands for; 0 for an empty skill list (the
      router's `if job_skills` guard). */
  function Value(s: Score): (r: real)
    ensures s.total == 0 ==> r == 0.0
    ensures s.matched <= s.total ==> 0.0 <= r <= 100.0
    ensures r > 0.0 <==> Positive(s)
  {
    if s.total == 0 then 0.0 else Percent(s.matched, s.total)
  }

  /** `match_score > 0`, decided on the counts. */
  predicate Positive(s: Score)
  {
    s.total > 0 && s.matched > 0
  }

  /** The score of a job, as both matchers compute it: the distinct skills
      it shares with the candidate over the length of its skill list,
      duplicates counted. */
  function SkillScore(resumeSkills: seq<string>, jobSkills: seq<string>): (score: Score)
    ensures score.total == |jobSkills|
    ensures score.matched <= score.total
    ensures score.matched > 0 <==> SetOf(resumeSkills) * SetOf(jobSkills) != {}
  {
    var matching := SetOf(resumeSkills) * SetOf(jobSkills);
    assert |matching| <= |jobSkills| by {
      SubsetSize(matching, SetOf(jobSkills));
      SetOfSize(jobSkills);
    }
    Score(|matching|, |jobSkills|)
  }

  /** The percentage lies in [0, 100]; it is 0 for a job without skills;
      it is positive exactly when the skill sets meet; and for a job with
      skills it is a hundred times the number of distinct matching skills
      over the length of the job's list. */
  lemma SkillScoreValue(resumeSkills: seq<string>, jobSkills: seq<string>)
    ensures var score := Value(SkillScore(resumeSkills, jobSkills));
      && 0.0 <= score <= 100.0
      && (jobSkills == [] ==> score == 0.0)
      && (score > 0.0 <==> SetOf(resumeSkills) * SetOf(jobSkills) != {})
      && score * |jobSkills| as real == |SetOf(resumeSkills) * SetOf(jobSkills)| as real * 100.0
  {
    if jobSkills != [] {
      PercentExact(|SetOf(resumeSkills) * SetOf(jobSkills)|, |jobSkills|);
    }
  }

  /** A repeated job skill lengthens the denominator without adding a match,
      so a job that matches at all scores strictly lower. */
  lemma DuplicateSkillLowersScore(resumeSkills: seq<string>, jobSkills: seq<string>, x: string)
    requires x in jobSkills
    requires SetOf(resumeSkills) * SetOf(jobSkills) != {}
    ensures Value(SkillScore(resumeSkills, jobSkills + [x])) < Value(SkillScore(resumeSkills, jobSkills))
  {
    SetOfAppendDuplicate(jobSkills, x);
    var matching := SetOf(resumeSkills) * SetOf(jobSkills);
    assert |matching| > 0;
    PercentDecreasesInTotal(|matching|, |jobSkills|, |jobSkills + [x]|);
  }

  function Percent(matched: nat, total: nat): (r: real)
    requires total > 0
    ensures matched <= total ==> 0.0 <= r <= 100.0
    ensures r > 0.0 <==> matched > 0
  {
    RatioBounds(matched, total);
    (matched as real / total as real) * 100.0
  }

  lemma RatioBounds(matched: nat, total: nat)
    requires total > 0
    ensures (matched as real / total as real) * total as real == matched as real
    ensures matched <= total ==> matched as real / total as real <= 1.0
  {
    var q := matched as real / total as real;
    if matched <= total && q > 1.0 {
      assert q * total as real > 1.0 * total as real;
    }
  }

  /** The score is exactly `matched * 100 / total`: it times the list length
      gives a hundred times the number of matches. */
  lemma PercentExact(matched: nat, total: nat)
    requires total > 0
    ensures Percent(matched, total) * total as real == matched as real * 100.0
  {
    RatioBounds(matched, total);
  }

  /** The same number of matches over a longer list is a strictly smaller
      score. */
  lemma PercentDecreasesInTotal(matched: nat, total: nat, longer: nat)
    requires 0 < matched && 0 < total < longer
    ensures Percent(matched, longer) < Percent(matched, total)
  {
    var a := Percent(matched, longer);
    var b := Percent(matched, total);
    PercentExact(matched, longer);
    PercentExact(matched, total);
    var d := (longer - total) as real;
    assert a * longer as real == b * total as real;
    assert b > 0.0 && d > 0.0;
    assert b * d > 0.0;
    assert b * longer as real == b * total as real + b * d;
    var l := longer as real;
    assert (b - a) * l == b * d;
    assert (b - a) * l > 0.0;
    PositiveFactor(b - a, l);
  }

  lemma PositiveFactor(x: real, y: real)
    requires y > 0.0 && x * y > 0.0
    ensures x > 0.0
  {
  }
}
