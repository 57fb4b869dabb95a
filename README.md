# Skill-overlap job matching, modelled in Dafny

This project models the matching core of an AI résumé matcher backend. A
candidate's skills arrive as a comma-separated reply from a language model.
Each job's required skills arrive as a comma-separated text field. The core
turns both into skill lists and scores every job by skill overlap. It then
ranks the jobs by score and keeps the best five.

The repository has two independently written matchers, and both are
modelled:

- **Router matcher** (`app/routers/resume.py`, `match_resume_to_jobs`).
  - It lower-cases and trims every comma piece and drops blank ones.
  - Each job gets the score `|matching| / len(job_skills) * 100`, or 0 when
    the job has no skills.
  - It keeps only jobs with a positive score, with their matching and
    missing skill sets.
  - It sorts them by descending score, keeps five, and reports two
    counters.
- **Crud matcher** (`app/crud.py`, `match_resume_to_jobs`).
  - It trims and lower-cases every comma piece but keeps blank ones as
    empty strings.
  - It scores every job, zero scores included.
  - It returns the five best entries.

The project also models:

- the skill-list post-processing of `extract_skills_with_gemini`
  (`app/gemini_interface.py`), which trims and drops blank pieces but keeps
  case;
- the `.pdf` filename check of the upload endpoint;
- the `Job` record shape.

Modules, one per file:

| file | module | contents |
|---|---|---|
| `text.dfy` | `Text` | `split(",")`, `strip()`, `lower()`, `endswith` on strings as character sequences |
| `lists.dfy` | `Lists` | `set(xs)`, `xs[:n]`, `min`, and the filtering comprehension `[f(x) for x in xs if keep(x)]` |
| `ranking.dfy` | `Ranking` | the stable descending sort, as a functional specification plus an in-place array insertion sort proved equal to it; sorting then truncating |
| `scoring.dfy` | `Scoring` | the skill-overlap score both matchers compute, and its percentage `matched / total * 100` |
| `models.dfy` | `Models` | the `Job` record |
| `gemini_interface.dfy` | `GeminiInterface` | the skill extractor's post-processing |
| `crud.dfy` | `Crud` | the crud matcher |
| `resume_router.dfy` | `ResumeRouter` | the upload check and the router matcher |
| `agreement.dfy` | `Agreement` | how the three normalisers and the two scores relate |

Modelling choices:

- **Score.** A score is held as the two counts it is computed from: the
  number of distinct shared skills and the length of the job's skill list.
  Its value is the exact rational `matched / total * 100` (`real`), or 0
  for an empty list. It is not the float that `round(x, 2)` produces. Both
  matchers compute the score with the same expression, so it is defined
  once, in `Scoring`.
- **`Job`** (`app/models.py:14-21`) is the datatype `Models.Job` with the
  id, title, location and skill text the matchers read.
- **`str.strip()`** removes the characters `str.isspace` accepts, listed
  explicitly.
- **`str.lower()`** maps ASCII upper-case letters only.
- **Sorting.** Python's `list.sort` is stable, also with `reverse=True`.
  The model sorts by stable insertion, which orders equal scores the same
  way.
- **Loops.** Both matchers fill their `matches` list in a loop and sort it
  in place. In the model:
  - each loop is a `method` whose invariant ties the list built so far to
    a specification function of the jobs seen so far;
  - the sort runs on an `array`.

Three behaviours of the code are easy to mistake, and the model follows
the code:

- Skill lists are Python lists, not sets. Duplicates are kept and count in
  the denominator (`len(job_skills)`), so a repeated job skill lowers the
  score.
- The crud matcher does not drop blank comma pieces. Its denominator is
  always the number of commas plus one.
- `required_skills` is the job's normalised list in piece order, not a set.

## Model

| member | source | states |
|---|---|---|
| `Text.IsSpace` | app/crud.py:27 | the whitespace `strip()` removes never includes a comma, a letter or a digit, so trimming never eats skill text |
| `Text.TrimStart` | app/crud.py:27 | the result is a suffix of the input, what was dropped is all whitespace, and the result does not start with whitespace |
| `Text.TrimEnd` | app/crud.py:27 | the result is a prefix of the input, what was dropped is all whitespace, and the result does not end with whitespace |
| `Text.Strip` | app/crud.py:27 | `strip()` leaves no whitespace at either end and never lengthens the string |
| `Text.StripPadded` | app/crud.py:27 | whitespace around a stripped core is exactly what `strip()` removes: the core comes back unchanged |
| `Text.StripEmptyIffBlank` | app/routers/resume.py:92 | `strip()` gives `""` exactly when the piece is all whitespace, which is the `if skill.strip()` filter condition |
| `Text.LowerChar` | app/crud.py:27 | an ASCII upper-case letter becomes its lower-case counterpart (code + 32); every other character is unchanged |
| `Text.Lower` | app/crud.py:27 | `lower()` keeps the length and maps each character on its own |
| `Text.LowerIsLower` | app/crud.py:27 | a lower-cased string has no upper-case letter |
| `Text.LowerEqualIffSameIgnoringCase` | app/routers/resume.py:92-102 | two strings lower-case to the same token iff they have the same length and agree letter by letter up to ASCII case, so `Python` and `python` meet and `Java` and `Bava` do not |
| `Text.LowerIdempotent` | app/crud.py:27 | lower-casing twice is lower-casing once |
| `Text.LowerStripCommute` | app/routers/resume.py:92 | `s.lower().strip()` (router) equals `s.strip().lower()` (crud) |
| `Text.Split` | app/crud.py:27 | `split(",")` gives one piece more than there are commas, and no piece contains a comma |
| `Text.EndsWith` | app/routers/resume.py:28 | `endswith(suffix)` holds iff the string is some stem followed by the suffix |
| `Text.JoinSplit` | app/crud.py:27 | joining the pieces with the separator gives back the original text |
| `Text.SplitJoin` | app/crud.py:27 | splitting a join of comma-free pieces gives back the pieces |
| `Lists.SetOf` | app/routers/resume.py:102 | `set(xs)` holds exactly the elements of the list |
| `Lists.SetOfSize` | app/routers/resume.py:102 | `set(xs)` is never larger than `xs` |
| `Lists.SetOfAppendDuplicate` | app/routers/resume.py:99 | a duplicate skill adds nothing to the skill set |
| `Lists.KeepMap` | app/routers/resume.py:99 | a filtering comprehension has at most one result per input element |
| `Lists.KeepMapAppend` | app/routers/resume.py:99 | the comprehension over a concatenation is the concatenation of the comprehensions, so order and duplicates survive |
| `Lists.KeepMapPrefix` | app/routers/resume.py:97-118 | extending the input by one element appends its image exactly when it is kept: the comprehension is the loop that appends |
| `Lists.KeepMapMember` | app/routers/resume.py:109-110 | a value is produced iff some kept input element maps to it |
| `Lists.Take` | app/crud.py:40 | `xs[:n]` is the prefix of length `min(n, len(xs))`, and the whole list when it is short |
| `Ranking.InsertByKey` | app/crud.py:39 | one insertion step adds exactly one entry |
| `Ranking.SortByKeyDesc` | app/crud.py:39 | the sorted list is as long as the input |
| `Ranking.SortedPermutes` | app/crud.py:39 | the sorted list is a permutation of the input (same multiset) |
| `Ranking.SortedNonIncreasing` | app/crud.py:39 | the sorted list is non-increasing in the key |
| `Ranking.SortedStable` | app/routers/resume.py:121 | for every score value, the entries with that score keep their input order (stability) |
| `Ranking.InsertPermutes` | app/routers/resume.py:121 | one insertion step adds the entry to the multiset and changes nothing else |
| `Ranking.InsertSorted` | app/routers/resume.py:121 | inserting into a non-increasing list keeps it non-increasing |
| `Ranking.InsertStable` | app/routers/resume.py:121 | insertion puts the new entry after every earlier entry with the same key |
| `Ranking.WithKeyAppend` | app/routers/resume.py:121 | the entries with one key in a concatenation are those of each part, in order |
| `Ranking.InsertKeysAtLeast` | app/routers/resume.py:121 | a lower bound on every key survives an insertion that respects it |
| `Ranking.InsertPosition` | app/routers/resume.py:121 | the insertion point is right after the last entry whose key is at least the new one's |
| `Ranking.SortInPlace` | app/crud.py:39 | sorting the array in place leaves exactly the stable descending order of its old contents |
| `Ranking.InsertNext` | app/crud.py:39 | one pass moves `a[i]` into the sorted prefix and leaves the rest of the array alone |
| `Ranking.SortAndTruncate` | app/routers/resume.py:121-122 | sort then `[:n]`: the first `min(n, len)` entries of the stable sorted order, non-increasing, each one an input entry |
| `Scoring.Value` | app/routers/resume.py:105-107 | the value is 0 for an empty skill list, lies in [0, 100] when the matches do not exceed the list, and is positive iff the list is non-empty and something matched |
| `Scoring.SkillScore` | app/routers/resume.py:102-107 | the denominator is the length of the job's list, duplicates counted; the matches never exceed it; something matched iff the skill sets intersect |
| `Scoring.SkillScoreValue` | app/crud.py:28-29 | the score lies in [0, 100], is 0 for a job without skills, is positive iff the skill sets intersect, and times the list length is 100 × the number of distinct shared skills |
| `Scoring.DuplicateSkillLowersScore` | app/routers/resume.py:99-107 | repeating a job skill strictly lowers a positive score |
| `Scoring.Percent` | app/crud.py:29 | the percentage lies in [0, 100] when matches do not exceed the total, and is positive iff something matched |
| `Scoring.PercentExact` | app/routers/resume.py:107 | the score times the list length is a hundred times the match count |
| `Scoring.PercentDecreasesInTotal` | app/routers/resume.py:105-107 | the same matches over a longer list give a strictly smaller score |
| `GeminiInterface.StripNonBlank` | app/gemini_interface.py:63 | at most one skill per piece, each non-empty with no surrounding whitespace |
| `GeminiInterface.ExtractSkills` | app/gemini_interface.py:62-64 | a non-string reply gives `[]`; a string gives at most commas + 1 skills, each non-empty and stripped |
| `GeminiInterface.StripNonBlankAppend` | app/gemini_interface.py:63 | the pieces of a concatenation give the skills of each part in order, so order and duplicates survive |
| `GeminiInterface.SkillsComeFromPieces` | app/gemini_interface.py:63 | every skill is exactly some piece with its surrounding whitespace stripped, so case is kept |
| `GeminiInterface.SingleSkillKept` | app/gemini_interface.py:63 | a comma-free, stripped skill name comes back unchanged, upper case included |
| `GeminiInterface.BlankPieces` | app/gemini_interface.py:63 | every piece is blank iff the text is made of whitespace and commas only |
| `GeminiInterface.NoSkillsIffBlank` | app/gemini_interface.py:63 | no skill survives iff every piece is blank |
| `GeminiInterface.NoSkillsIffOnlySpaceAndCommas` | app/gemini_interface.py:63 | the reply yields `[]` exactly when it is empty or only whitespace and commas |
| `Crud.StripLowerAll` | app/crud.py:27 | one token per piece, none dropped |
| `Crud.StripLowerAllShape` | app/crud.py:27 | entry `i` is piece `i` stripped and lower-cased; it is `""` iff the piece is all whitespace; every entry is stripped and lower-case |
| `Crud.JobSkills` | app/crud.py:27 | the job's list has commas + 1 entries, so it is never empty |
| `Crud.MatchScore` | app/crud.py:39 | the sort key lies in [0, 100] and is positive iff the entry's score counts a match |
| `Crud.ScoreJob` | app/crud.py:27-36 | the entry copies the job's id, title and location; its score counts the distinct shared skills over commas + 1 |
| `Crud.ScoreJobValue` | app/crud.py:28-35 | the score lies in [0, 100] and is positive iff some skill is shared |
| `Crud.ScoreAll` | app/crud.py:24-36 | exactly one entry per job before sorting |
| `Crud.ScoreAllAt` | app/crud.py:26-36 | entry `i` is job `i`'s entry, so job order is kept and zero scores are included |
| `Crud.ScoreAllExtend` | app/crud.py:26-36 | each loop iteration appends the next job's entry |
| `Crud.MatchResumeToJobs` | app/crud.py:23-40 | the result is the first `min(5, len(jobs))` entries of the stable descending sort of all entries; it is non-increasing, and every returned entry is one of the per-job entries; an empty job list gives `[]` |
| `ResumeRouter.CheckUpload` | app/routers/resume.py:28-29 | the upload is refused, with status 400 and its message, iff the filename does not end in `.pdf` |
| `ResumeRouter.UploadAcceptsExactlyPdfNames` | app/routers/resume.py:28-29 | a filename passes iff it is some stem followed by `.pdf` |
| `ResumeRouter.UploadRejectsUpperCaseExtension` | app/routers/resume.py:28-29 | the check is case-sensitive: `resume.PDF` is refused |
| `ResumeRouter.NormalizedToken` | app/routers/resume.py:92 | a piece that is not all whitespace gives a non-empty, stripped, lower-case token |
| `ResumeRouter.LowerStripNonBlank` | app/routers/resume.py:92 | at most one token per piece, each non-empty, stripped and lower-case |
| `ResumeRouter.NormalizeSkills` | app/routers/resume.py:99 | at most commas + 1 tokens, each non-empty, stripped and lower-case |
| `ResumeRouter.LowerStripNonBlankAppend` | app/routers/resume.py:92 | normalisation maps concatenations to concatenations, so order and duplicates survive |
| `ResumeRouter.TokensArePieces` | app/routers/resume.py:99 | a token is produced iff some non-blank piece, trimmed and lower-cased, equals it |
| `ResumeRouter.MatchScore` | app/routers/resume.py:121 | the sort key is 0 for a job without skills, lies in [0, 100], and is positive iff the `match_score > 0` filter passes |
| `ResumeRouter.Evaluate` | app/routers/resume.py:99-117 | the entry copies the job's identity, its required skills are the normalised list, and its score is the shared skill score over that list |
| `ResumeRouter.EvaluateSpec` | app/routers/resume.py:99-117 | the entry copies the job's identity; its required skills are the normalised list; its score is the shared skill score over them (exact value in `Scoring.SkillScoreValue`); matching = on both lists; missing = on the job's list only; the score lies in [0, 100], is 0 without skills, and is positive iff matching is non-empty |
| `ResumeRouter.MatchingMissingPartition` | app/routers/resume.py:115-117 | matching and missing skills are disjoint and together make up the job's skill set |
| `ResumeRouter.PositiveMatches` | app/routers/resume.py:95-118 | no more kept entries than jobs |
| `ResumeRouter.PositiveMatchesMember` | app/routers/resume.py:97-118 | an entry is kept iff it is the entry of some job of the list and its score is positive |
| `ResumeRouter.KeptEntriesMatch` | app/routers/resume.py:109-115 | every kept entry has a score in (0, 100] and a non-empty matching set |
| `ResumeRouter.CollectMatches` | app/routers/resume.py:95-118 | the loop builds exactly the kept entries, in job order |
| `ResumeRouter.MatchResumeToJobs` | app/routers/resume.py:92-129 | the report carries the id and the normalised candidate skills; its matches are the first five of the stable descending sort of the kept entries; `total_matches_found` is the number kept; `showing_top = min(5, total) = len(job_matches)`; the matches are non-increasing, each with a positive score and a non-empty matching set |
| `Agreement.LowerEach` | app/routers/resume.py:92 | lower-casing a list keeps its length |
| `Agreement.DropEmpty` | app/routers/resume.py:99 | dropping empty strings keeps only non-empty entries of the input |
| `Agreement.LowerStripNonBlankIsLoweredStripNonBlank` | app/gemini_interface.py:63 | the router's token list is the extractor's token list lower-cased |
| `Agreement.NormalizeIsLoweredExtraction` | app/routers/resume.py:92 | the router's candidate skills are the extractor's skills lower-cased, one for one |
| `Agreement.StripLowerAllDropEmpty` | app/crud.py:27 | the router's tokens are the crud tokens with the empty ones removed |
| `Agreement.RouterSkillsDropCrudBlanks` | app/routers/resume.py:99 | the router's job skill list is the crud one without its empty entries |
| `Agreement.StripLowerAllNoBlank` | app/crud.py:27 | without blank pieces the crud and router tokens coincide |
| `Agreement.ScoresAgreeWithoutBlankPieces` | app/crud.py:27-29 | when no comma piece is blank, both matchers build the same skill list and give the same score |
| `Agreement.TrailingCommaCrudSkills` | app/crud.py:27 | the crud skill list of `"Python,"` is `["python", ""]` |
| `Agreement.TrailingCommaRouterSkills` | app/routers/resume.py:99 | the router skill list of `"Python,"` is `["python"]` |
| `Agreement.TrailingCommaDiverges` | app/crud.py:27 | for the job text `"Python,"` and the candidate `python`, the crud matcher scores 50 and the router 100 |

## Left out

- PDF reading and text extraction in the upload endpoint (`file.read`, `pdfplumber`). These are I/O through a foreign library. Only the filename check that runs before them is modelled.
- Database access is out: saving and updating résumés, loading all jobs, and the résumé lookup with its 404 when the id is unknown. The jobs are a parameter of each matcher.
- The language-model call `get_resume_feedback` is an HTTP request to an external API. Its reply is a parameter: a string for the router, a `Reply` for the extractor.
- The prompts sent to the model are out.
- `round(match_score, 2)` is out. The score is exact, so ties that only rounding would create are not modelled. The router keeps an entry on the unrounded score but reports the rounded one, so a job with more than 20000 skills and one match is kept yet reported as 0.0; the (0, 100] bound of `ResumeRouter.KeptEntriesMatch` holds for the exact score only.
- Exceptions and the status codes the endpoints map them to (422, 500) are out. The filename check's 400 is modelled.
- `str.lower()` beyond ASCII is out. Non-ASCII letters keep their case in the model.
- The `description` column of `Job` is not modelled, because neither matcher reads it.
- Logging and the FastAPI/SQLAlchemy wiring are out.
- `ResumeRouter.JobMatch`: `matching_skills` and `missing_skills` are lists made from sets in the source. They are modelled as sets, so their (unspecified) order is not captured.
