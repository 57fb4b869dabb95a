/** How the three comma-list normalisers relate: the router's is the
    skill extractor's followed by lower-casing, and it is the crud helper's
    with the blank pieces dropped. When a job's skill text has no blank
    piece, both matchers give that job the same score. */
module Agreement {
  import opened Text
  import opened Models
  import Lists
  import opened Scoring
  import GeminiInterface
  import Crud
  import ResumeRouter

  /** `[s.lower() for s in xs]`. */
  function LowerEach(xs: seq<string>): (r: seq<string>)
    ensures |r| == |xs|
  {
    if xs == [] then [] else [Lower(xs[0])] + LowerEach(xs[1..])
  }

  /** The strings of `xs` that are not empty, in order. */
  function DropEmpty(xs: seq<string>): (r: seq<string>)
    ensures |r| <= |xs|
    ensures forall t :: t in r ==> t != [] && t in xs
  {
    if xs == [] then []
    else (if xs[0] != [] then [xs[0]] else []) + DropEmpty(xs[1..])
  }

  lemma {:induction false} LowerStripNonBlankIsLoweredStripNonBlank(pieces: seq<string>)
    ensures ResumeRouter.LowerStripNonBlank(pieces) == LowerEach(GeminiInterface.StripNonBlank(pieces))
  {
    if pieces != [] {
      LowerStripNonBlankIsLoweredStripNonBlank(pieces[1..]);
      LowerStripCommute(pieces[0]);
      var rest := GeminiInterface.StripNonBlank(pieces[1..]);
      if Strip(pieces[0]) != [] {
        var kept := [Strip(pieces[0])] + rest;
        assert GeminiInterface.StripNonBlank(pieces) == kept;
        assert kept[1..] == rest;
        assert LowerEach(kept) == [Lower(Strip(pieces[0]))] + LowerEach(rest);
      } else {
        assert GeminiInterface.StripNonBlank(pieces) == rest;
      }
    }
  }

  /** The router's candidate skills are the extractor's skills lower-cased,
      one for one. */
  lemma NormalizeIsLoweredExtraction(text: string)
    ensures ResumeRouter.NormalizeSkills(text)
         == LowerEach(GeminiInterface.ExtractSkills(GeminiInterface.Str(text)))
  {
    LowerStripNonBlankIsLoweredStripNonBlank(Split(text, ','));
  }

  lemma {:induction false} StripLowerAllDropEmpty(pieces: seq<string>)
    ensures DropEmpty(Crud.StripLowerAll(pieces)) == ResumeRouter.LowerStripNonBlank(pieces)
  {
    if pieces != [] {
      StripLowerAllDropEmpty(pieces[1..]);
      LowerStripCommute(pieces[0]);
      var all := Crud.StripLowerAll(pieces);
      assert all[1..] == Crud.StripLowerAll(pieces[1..]);
    }
  }

  /** The router's job skills are the crud helper's with the empty entries
      (from blank comma pieces) removed. */
  lemma RouterSkillsDropCrudBlanks(skillsRequired: string)
    ensures DropEmpty(Crud.JobSkills(skillsRequired)) == ResumeRouter.NormalizeSkills(skillsRequired)
  {
    StripLowerAllDropEmpty(Split(skillsRequired, ','));
  }

  /** A skill text whose every comma piece holds more than whitespace. */
  predicate NoBlankPiece(skillsRequired: string)
  {
    forall p :: p in Split(skillsRequired, ',') ==> Strip(p) != []
  }

  lemma {:induction false} StripLowerAllNoBlank(pieces: seq<string>)
    requires forall p :: p in pieces ==> Strip(p) != []
    ensures Crud.StripLowerAll(pieces) == ResumeRouter.LowerStripNonBlank(pieces)
  {
    if pieces != [] {
      StripLowerAllNoBlank(pieces[1..]);
      LowerStripCommute(pieces[0]);
    }
  }

  /** Without blank pieces both matchers build the same skill list and give
      the job the same score. */
  lemma ScoresAgreeWithoutBlankPieces(resumeSkills: seq<string>, job: Job)
    requires NoBlankPiece(job.skillsRequired)
    ensures Crud.JobSkills(job.skillsRequired) == ResumeRouter.NormalizeSkills(job.skillsRequired)
    ensures Crud.ScoreJob(resumeSkills, job).matchScore
         == ResumeRouter.Evaluate(resumeSkills, job).matchScore
  {
    StripLowerAllNoBlank(Split(job.skillsRequired, ','));
  }

  const TrailingCommaJob := Job(1, "Dev", "Remote", "Python,")

  lemma TrailingCommaSplit()
    ensures Split(TrailingCommaJob.skillsRequired, ',') == ["Python", ""]
  {
    assert "Python," == "Python" + ([','] + "");
    SplitCons("Python", "", ',');
  }

  lemma PythonStripped()
    ensures Strip("Python") == "Python"
  {
    StripPadded([], "Python", []);
    assert [] + "Python" + [] == "Python";
  }

  lemma PythonLowered()
    ensures Lower("Python") == "python"
  {
  }

  lemma StripLowerAllCons(p: string, rest: seq<string>)
    ensures Crud.StripLowerAll([p] + rest) == [Lower(Strip(p))] + Crud.StripLowerAll(rest)
  {
    assert ([p] + rest)[1..] == rest;
  }

  lemma BlankLowered()
    ensures Lower(Strip("")) == ""
  {
    assert |Strip("")| == 0;
  }

  /** A piece followed by a blank one: the blank survives as an empty entry. */
  lemma StripLowerTrailingBlank(piece: string)
    ensures Crud.StripLowerAll([piece, ""]) == [Lower(Strip(piece)), ""]
  {
    var rest := Crud.StripLowerAll([""]);
    assert rest == [""] by {
      assert [""] == [""] + [];
      StripLowerAllCons("", []);
      BlankLowered();
    }
    assert [piece, ""] == [piece] + [""];
    StripLowerAllCons(piece, [""]);
  }

  lemma TrailingCommaCrudSkills()
    ensures Crud.JobSkills(TrailingCommaJob.skillsRequired) == ["python", ""]
  {
    TrailingCommaSplit();
    StripLowerTrailingBlank("Python");
    PythonStripped();
    PythonLowered();
  }

  lemma TrailingCommaRouterSkills()
    ensures ResumeRouter.NormalizeSkills(TrailingCommaJob.skillsRequired) == ["python"]
  {
    TrailingCommaSplit();
    var pieces: seq<string> := ["Python", ""];
    assert Strip(Lower("Python")) == "python" by {
      PythonStripped();
      PythonLowered();
      LowerStripCommute("Python");
    }
    assert Strip("Python") != [] by {
      PythonStripped();
    }
    assert pieces[1..] == [""];
    assert ResumeRouter.LowerStripNonBlank([""]) == [];
    assert ResumeRouter.LowerStripNonBlank(pieces)
        == [Strip(Lower("Python"))] + ResumeRouter.LowerStripNonBlank([""]);
  }

  lemma HalfMatch()
    ensures SkillScore(["python"], ["python", ""]) == Score(1, 2)
  {
    assert Lists.SetOf(["python"]) == {"python"};
    assert Lists.SetOf(["python", ""]) == {"python", ""};
    assert Lists.SetOf(["python"]) * Lists.SetOf(["python", ""]) == {"python"};
  }

  lemma FullMatch()
    ensures SkillScore(["python"], ["python"]) == Score(1, 1)
  {
    assert Lists.SetOf(["python"]) == {"python"};
    assert Lists.SetOf(["python"]) * Lists.SetOf(["python"]) == {"python"};
  }

  lemma TrailingCommaCrudScore()
    ensures Crud.ScoreJob(["python"], TrailingCommaJob).matchScore == Score(1, 2)
  {
    TrailingCommaCrudSkills();
    HalfMatch();
  }

  lemma TrailingCommaRouterScore()
    ensures ResumeRouter.Evaluate(["python"], TrailingCommaJob).matchScore == Score(1, 1)
  {
    TrailingCommaRouterSkills();
    FullMatch();
  }

  /** A trailing comma is where they part: for a candidate with `python`,
      the job `"Python,"` scores 50 in the crud matcher (two pieces, one of
      them empty) and 100 in the router. */
  lemma TrailingCommaDiverges()
    ensures Crud.MatchScore(Crud.ScoreJob(["python"], TrailingCommaJob)) == 50.0
    ensures ResumeRouter.MatchScore(ResumeRouter.Evaluate(["python"], TrailingCommaJob)) == 100.0
  {
    var crud := Crud.ScoreJob(["python"], TrailingCommaJob);
    var router := ResumeRouter.Evaluate(["python"], TrailingCommaJob);
    TrailingCommaCrudScore();
    TrailingCommaRouterScore();
    HalfAndWhole();
    assert Crud.MatchScore(crud) == Value(crud.matchScore);
    assert ResumeRouter.MatchScore(router) == Value(router.matchScore);
  }

  lemma HalfAndWhole()
    ensures Value(Score(1, 2)) == 50.0
    ensures Value(Score(1, 1)) == 100.0
  {
    assert Percent(1, 2) == 50.0;
    assert Percent(1, 1) == 100.0;
  }
}
