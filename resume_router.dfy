/** The `/resume` router (app/routers/resume.py): the upload filename check
    and the full matcher `match_resume_to_jobs`, which keeps only jobs with
    a positive score and reports the matched and missing skills. */
module ResumeRouter {
  import opened Text
  import opened Lists
  import opened Models
  import opened Scoring
  import Ranking

  /** How many entries the report keeps (`matches[:5]`, `min(5, ...)`). */
  const TopCount: nat := 5

  /** The suffix an upload's filename must have. */
  const PdfSuffix: string := ".pdf"

  /** Outcome of the filename check that runs before the upload is read. */
  datatype UploadCheck = Proceed | Rejected(status: int, detail: string)

  function CheckUpload(filename: string): (c: UploadCheck)
    ensures c.Rejected? <==> !EndsWith(filename, PdfSuffix)
    ensures c.Rejected? ==> c.status == 400 && c.detail == "Only PDF files are accepted."
  {
    if !EndsWith(filename, PdfSuffix) then Rejected(400, "Only PDF files are accepted.") else Proceed
  }

  /** Any name followed by `.pdf` passes, and every name that passes is some
      stem followed by `.pdf`. */
  lemma UploadAcceptsExactlyPdfNames(filename: string)
    ensures CheckUpload(filename) == Proceed
        <==> exists stem :: filename == stem + PdfSuffix
  {
    if exists stem :: filename == stem + PdfSuffix {
      var stem :| filename == stem + PdfSuffix;
      assert filename[|filename| - |PdfSuffix|..] == PdfSuffix;
    }
  }

  /** The comparison is case-sensitive: an upper-case extension is refused. */
  lemma UploadRejectsUpperCaseExtension()
    ensures CheckUpload("resume.PDF") == Rejected(400, "Only PDF files are accepted.")
  {
    assert "resume.PDF"[6..][1] == 'P';
  }

  /** A piece with something besides whitespace gives a normalised token
      that is non-empty, stripped and lower-case. */
  lemma NormalizedToken(p: string)
    requires !AllSpace(p)
    ensures Strip(Lower(p)) != [] && IsStripped(Strip(Lower(p))) && IsLower(Strip(Lower(p)))
  {
    StripEmptyIffBlank(p);
    LowerStripCommute(p);
    LowerIsLower(Strip(p));
  }

  /** `p.lower().strip()`. */
  function LowerStrip(p: string): string
  {
    Strip(Lower(p))
  }

  /** `[p.lower().strip() for p in pieces if p.strip()]`. */
  function LowerStripNonBlank(pieces: seq<string>): (r: seq<string>)
    ensures |r| <= |pieces|
    ensures forall t :: t in r ==> t != [] && IsStripped(t) && IsLower(t)
  {
    var r := KeepMap(pieces, NonBlank, LowerStrip);
    assert forall t :: t in r ==> t != [] && IsStripped(t) && IsLower(t) by {
      forall t | t in r ensures t != [] && IsStripped(t) && IsLower(t) {
        KeepMapMember(pieces, NonBlank, LowerStrip, t);
        var p :| p in pieces && NonBlank(p) && LowerStrip(p) == t;
        StripEmptyIffBlank(p);
        NormalizedToken(p);
      }
    }
    r
  }

  /** A comma-separated skill text as the matcher normalises it, for the
      candidate (from the model's reply) and for each job alike. */
  function NormalizeSkills(text: string): (skills: seq<string>)
    ensures |skills| <= Occurrences(text, ',') + 1
    ensures forall t :: t in skills ==> t != [] && IsStripped(t) && IsLower(t)
  {
    LowerStripNonBlank(Split(text, ','))
  }

  /** Order and duplicates survive normalisation. */
  lemma LowerStripNonBlankAppend(a: seq<string>, b: seq<string>)
    ensures LowerStripNonBlank(a + b) == LowerStripNonBlank(a) + LowerStripNonBlank(b)
  {
    KeepMapAppend(a, b, NonBlank, LowerStrip);
  }

  /** A token comes out exactly when some non-blank piece, trimmed and
      lower-cased, equals it. */
  lemma TokensArePieces(pieces: seq<string>, t: string)
    ensures t in LowerStripNonBlank(pieces)
        <==> exists p :: p in pieces && Strip(p) != [] && Lower(Strip(p)) == t
  {
    KeepMapMember(pieces, NonBlank, LowerStrip, t);
    forall p | p in pieces ensures LowerStrip(p) == Lower(Strip(p)) {
      LowerStripCommute(p);
    }
  }

  /** One entry of the report. `matchingSkills` and `missingSkills` are
      built from sets, so their order is not part of the result. */
  datatype JobMatch = JobMatch(
    jobId: int,
    title: string,
    location: string,
    matchScore: Score,
    matchingSkills: set<string>,
    requiredSkills: seq<string>,
    missingSkills: set<string>)

  /** The sort key, `lambda x: x['match_score']`. */
  function MatchScore(m: JobMatch): (r: real)
    ensures m.matchScore.total == 0 ==> r == 0.0
    ensures m.matchScore.matched <= m.matchScore.total ==> 0.0 <= r <= 100.0
    ensures r > 0.0 <==> Positive(m.matchScore)
  {
    Value(m.matchScore)
  }

  /** The entry the matcher builds for one job, before deciding whether to
      keep it. */
  function Evaluate(resumeSkills: seq<string>, job: Job): (m: JobMatch)
    ensures m.jobId == job.id && m.title == job.title && m.location == job.location
    ensures m.requiredSkills == NormalizeSkills(job.skillsRequired)
    ensures m.matchScore == SkillScore(resumeSkills, m.requiredSkills)
  {
    var jobSkills := NormalizeSkills(job.skillsRequired);
    JobMatch(job.id, job.title, job.location, SkillScore(resumeSkills, jobSkills),
             SetOf(resumeSkills) * SetOf(jobSkills), jobSkills, SetOf(jobSkills) - SetOf(resumeSkills))
  }

  /** The job's identity is copied, its skills are normalised, the matching
      skills are those on both lists and the missing ones those only on the
      job's, and the score lies in [0, 100], is 0 without skills and is
      positive exactly when something matches. */
  lemma EvaluateSpec(resumeSkills: seq<string>, job: Job)
    ensures var m := Evaluate(resumeSkills, job);
      && m.jobId == job.id && m.title == job.title && m.location == job.location
      && m.requiredSkills == NormalizeSkills(job.skillsRequired)
      && m.matchScore == SkillScore(resumeSkills, m.requiredSkills)
      && (forall s :: s in m.matchingSkills <==> s in resumeSkills && s in m.requiredSkills)
      && (forall s :: s in m.missingSkills <==> s in m.requiredSkills && s !in resumeSkills)
      && 0.0 <= MatchScore(m) <= 100.0
      && (m.requiredSkills == [] ==> MatchScore(m) == 0.0)
      && (MatchScore(m) > 0.0 <==> m.matchingSkills != {})
  {
    var jobSkills := NormalizeSkills(job.skillsRequired);
    var candidate, required := SetOf(resumeSkills), SetOf(jobSkills);
    var m := Evaluate(resumeSkills, job);
    assert m.requiredSkills == jobSkills;
    assert m.matchingSkills == candidate * required;
    assert m.missingSkills == required - candidate;
    assert m.matchScore == SkillScore(resumeSkills, jobSkills);
    SkillScoreValue(resumeSkills, jobSkills);
  }

  /** Matched and missing skills split the job's distinct skills: no skill
      is both, and together they are all of them. */
  lemma MatchingMissingPartition(resumeSkills: seq<string>, job: Job)
    ensures Evaluate(resumeSkills, job).matchingSkills * Evaluate(resumeSkills, job).missingSkills == {}
    ensures Evaluate(resumeSkills, job).matchingSkills + Evaluate(resumeSkills, job).missingSkills
         == SetOf(Evaluate(resumeSkills, job).requiredSkills)
  {
    var m := Evaluate(resumeSkills, job);
    var candidate, required := SetOf(resumeSkills), SetOf(m.requiredSkills);
    assert m.matchingSkills == candidate * required;
    assert m.missingSkills == required - candidate;
  }

  /** Whether the matcher keeps a job (`if match_score > 0`); by
      `Scoring.Value`, the same as `MatchScore(m) > 0.0`. */
  predicate Kept(m: JobMatch)
  {
    Positive(m.matchScore)
  }

  /** The filter `match_score > 0` applied to a job. */
  function KeptFor(resumeSkills: seq<string>): Job -> bool
  {
    job => Kept(Evaluate(resumeSkills, job))
  }

  /** The evaluation of a job for a fixed candidate. */
  function EvaluateFor(resumeSkills: seq<string>): Job -> JobMatch
  {
    job => Evaluate(resumeSkills, job)
  }

  /** The kept entries before sorting: those of the jobs with a positive
      score, in job-list order. */
  function PositiveMatches(resumeSkills: seq<string>, jobs: seq<Job>): (r: seq<JobMatch>)
    ensures |r| <= |jobs|
  {
    KeepMap(jobs, KeptFor(resumeSkills), EvaluateFor(resumeSkills))
  }

  /** An entry is kept exactly when it is the evaluation of some job of the
      list and its score is positive. */
  lemma PositiveMatchesMember(resumeSkills: seq<string>, jobs: seq<Job>, m: JobMatch)
    ensures m in PositiveMatches(resumeSkills, jobs)
        <==> exists job :: job in jobs && Kept(Evaluate(resumeSkills, job)) && Evaluate(resumeSkills, job) == m
  {
    KeepMapMember(jobs, KeptFor(resumeSkills), EvaluateFor(resumeSkills), m);
  }

  /** Every kept entry has a positive score and at least one matching skill. */
  lemma KeptEntriesMatch(resumeSkills: seq<string>, jobs: seq<Job>, m: JobMatch)
    requires m in PositiveMatches(resumeSkills, jobs)
    ensures 0.0 < MatchScore(m) <= 100.0 && m.matchingSkills != {}
  {
    PositiveMatchesMember(resumeSkills, jobs, m);
    var job :| job in jobs && Kept(Evaluate(resumeSkills, job)) && Evaluate(resumeSkills, job) == m;
    EvaluateSpec(resumeSkills, job);
  }

  /** The loop over the jobs (`for job in job_list: ... matches.append(...)`). */
  method CollectMatches(resumeSkills: seq<string>, jobs: seq<Job>) returns (matches: seq<JobMatch>)
    ensures matches == PositiveMatches(resumeSkills, jobs)
  {
    matches := [];
    for i := 0 to |jobs|
      invariant matches == PositiveMatches(resumeSkills, jobs[..i])
    {
      KeepMapPrefix(jobs, i, KeptFor(resumeSkills), EvaluateFor(resumeSkills));
      var m := Evaluate(resumeSkills, jobs[i]);
      if MatchScore(m) > 0.0 {
        matches := matches + [m];
      }
    }
    assert jobs[..|jobs|] == jobs;
  }

  /** The response body of the matcher. */
  datatype MatchReport = MatchReport(
    resumeId: int,
    candidateSkills: seq<string>,
    jobMatches: seq<JobMatch>,
    totalMatchesFound: nat,
    showingTop: nat)

  /** Normalises the candidate's skills from the model's reply, keeps the jobs
      that share a skill with them, sorts those by descending score (stable)
      and reports the first five with the counters. */
  method MatchResumeToJobs(resumeId: int, skillsText: string, jobs: seq<Job>) returns (report: MatchReport)
    ensures report.resumeId == resumeId
    ensures report.candidateSkills == NormalizeSkills(skillsText)
    ensures report.jobMatches
         == Take(Ranking.SortByKeyDesc(PositiveMatches(report.candidateSkills, jobs), MatchScore), TopCount)
    ensures report.totalMatchesFound == |PositiveMatches(report.candidateSkills, jobs)|
    ensures report.showingTop == Min(TopCount, report.totalMatchesFound) == |report.jobMatches|
    ensures Ranking.NonIncreasing(report.jobMatches, MatchScore)
    ensures forall m :: m in report.jobMatches ==> 0.0 < MatchScore(m) <= 100.0 && m.matchingSkills != {}
  {
    var resumeSkills := NormalizeSkills(skillsText);
    var matches := CollectMatches(resumeSkills, jobs);
    var top := Ranking.SortAndTruncate(matches, MatchScore, TopCount);
    forall m | m in top ensures 0.0 < MatchScore(m) <= 100.0 && m.matchingSkills != {} {
      KeptEntriesMatch(resumeSkills, jobs, m);
    }
    report := MatchReport(resumeId, resumeSkills, top, |matches|, Min(TopCount, |matches|));
  }
}
