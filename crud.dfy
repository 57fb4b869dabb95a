/** The simple matcher `match_resume_to_jobs` of app/crud.py: every job gets
    an entry scored by skill overlap, zero scores included, and the five
    best entries are returned in stable descending score order. */
module Crud {
  import opened Text
  import opened Lists
  import opened Models
  import opened Scoring
  import Ranking

  /** How many entries the result keeps (`matches[:5]`). */
  const TopCount: nat := 5

  /** One result entry. */
  datatype ScoredJob = ScoredJob(jobId: int, title: string, location: string, matchScore: Score)

  /** The sort key, `lambda x: x['match_score']`. */
  function MatchScore(m: ScoredJob): (r: real)
    ensures m.matchScore.matched <= m.matchScore.total ==> 0.0 <= r <= 100.0
    ensures r > 0.0 <==> Positive(m.matchScore)
  {
    Value(m.matchScore)
  }

  /** `[p.strip().lower() for p in pieces]`: no piece is dropped. */
  function StripLowerAll(pieces: seq<string>): (r: seq<string>)
    ensures |r| == |pieces|
  {
    if pieces == [] then [] else [Lower(Strip(pieces[0]))] + StripLowerAll(pieces[1..])
  }

  /** Entry `i` is piece `i` stripped and lower-cased, so every entry is
      stripped and lower-case, and it is `""` exactly when the piece is all
      whitespace. */
  lemma {:induction false} StripLowerAllShape(pieces: seq<string>)
    ensures forall i :: 0 <= i < |pieces| ==> StripLowerAll(pieces)[i] == Lower(Strip(pieces[i]))
    ensures forall i :: 0 <= i < |pieces| ==> (StripLowerAll(pieces)[i] == [] <==> AllSpace(pieces[i]))
    ensures forall t :: t in StripLowerAll(pieces) ==> IsStripped(t) && IsLower(t)
  {
    if pieces != [] {
      StripLowerAllShape(pieces[1..]);
      LowerStripCommute(pieces[0]);
      LowerIsLower(Strip(pieces[0]));
      var r := StripLowerAll(pieces);
      forall i | 0 <= i < |pieces|
        ensures r[i] == Lower(Strip(pieces[i]))
        ensures r[i] == [] <==> AllSpace(pieces[i])
      {
        if i > 0 {
          assert r[i] == StripLowerAll(pieces[1..])[i - 1];
          assert pieces[i] == pieces[1..][i - 1];
        }
        StripEmptyIffBlank(pieces[i]);
      }
    }
  }

  /** The job's skill list: one entry per comma piece, blank pieces kept as
      empty strings, so the list is never empty. */
  function JobSkills(skillsRequired: string): (r: seq<string>)
    ensures |r| == Occurrences(skillsRequired, ',') + 1
  {
    StripLowerAll(Split(skillsRequired, ','))
  }

  /** The entry for one job: its identity copied, its score the distinct
      shared skills over the length of its skill list, which is never empty. */
  function ScoreJob(resumeSkills: seq<string>, job: Job): (m: ScoredJob)
    ensures m.jobId == job.id && m.title == job.title && m.location == job.location
    ensures m.matchScore.total == |JobSkills(job.skillsRequired)| == Occurrences(job.skillsRequired, ',') + 1
    ensures m.matchScore.matched == |SetOf(resumeSkills) * SetOf(JobSkills(job.skillsRequired))|
  {
    ScoredJob(job.id, job.title, job.location, SkillScore(resumeSkills, JobSkills(job.skillsRequired)))
  }

  /** The score lies in [0, 100] and is positive exactly when some skill is
      shared. */
  lemma ScoreJobValue(resumeSkills: seq<string>, job: Job)
    ensures 0.0 <= MatchScore(ScoreJob(resumeSkills, job)) <= 100.0
    ensures MatchScore(ScoreJob(resumeSkills, job)) > 0.0
        <==> SetOf(resumeSkills) * SetOf(JobSkills(job.skillsRequired)) != {}
  {
    var jobSkills := JobSkills(job.skillsRequired);
    var s := SkillScore(resumeSkills, jobSkills);
    assert MatchScore(ScoreJob(resumeSkills, job)) == Value(s);
    SkillScoreValue(resumeSkills, jobSkills);
  }

  /** The entries before sorting: one per job, in job-list order. */
  function ScoreAll(resumeSkills: seq<string>, jobs: seq<Job>): (r: seq<ScoredJob>)
    ensures |r| == |jobs|
  {
    if jobs == [] then []
    else ScoreAll(resumeSkills, jobs[..|jobs| - 1]) + [ScoreJob(resumeSkills, jobs[|jobs| - 1])]
  }

  lemma {:induction false} ScoreAllAt(resumeSkills: seq<string>, jobs: seq<Job>, i: nat)
    requires i < |jobs|
    ensures ScoreAll(resumeSkills, jobs)[i] == ScoreJob(resumeSkills, jobs[i])
  {
    var init := jobs[..|jobs| - 1];
    if i < |jobs| - 1 {
      ScoreAllAt(resumeSkills, init, i);
      assert init[i] == jobs[i];
    }
  }

  lemma ScoreAllExtend(resumeSkills: seq<string>, jobs: seq<Job>, i: nat)
    requires i < |jobs|
    ensures ScoreAll(resumeSkills, jobs[..i + 1]) == ScoreAll(resumeSkills, jobs[..i]) + [ScoreJob(resumeSkills, jobs[i])]
  {
    assert jobs[..i + 1][..i] == jobs[..i];
  }

  /** Scores every job, sorts the entries by descending score (stable) and
      keeps the first five. */
  method MatchResumeToJobs(resumeSkills: seq<string>, jobs: seq<Job>) returns (top: seq<ScoredJob>)
    ensures top == Take(Ranking.SortByKeyDesc(ScoreAll(resumeSkills, jobs), MatchScore), TopCount)
    ensures |top| == Min(TopCount, |jobs|)
    ensures Ranking.NonIncreasing(top, MatchScore)
    ensures forall m :: m in top ==> m in ScoreAll(resumeSkills, jobs)
  {
    var matches: seq<ScoredJob> := [];
    for i := 0 to |jobs|
      invariant matches == ScoreAll(resumeSkills, jobs[..i])
    {
      ScoreAllExtend(resumeSkills, jobs, i);
      matches := matches + [ScoreJob(resumeSkills, jobs[i])];
    }
    assert jobs[..|jobs|] == jobs;
    top := Ranking.SortAndTruncate(matches, MatchScore, TopCount);
  }
}
