/** The skill-list post-processing of `extract_skills_with_gemini`
    (app/gemini_interface.py): the model's reply is split on commas, each
    piece is trimmed, blank pieces are dropped. Case is kept as it is. */
module GeminiInterface {
  import opened Text
  import opened Lists

  /** What the feedback call handed back: a string, or some other value. */
  datatype Reply = Str(text: string) | NotStr

  /** `[p.strip() for p in pieces if p.strip()]`. */
  function StripNonBlank(pieces: seq<string>): (r: seq<string>)
    ensures |r| <= |pieces|
    ensures forall t :: t in r ==> t != [] && IsStripped(t)
  {
    var r := KeepMap(pieces, NonBlank, Strip);
    assert forall t :: t in r ==> t != [] && IsStripped(t) by {
      forall t | t in r ensures t != [] && IsStripped(t) {
        KeepMapMember(pieces, NonBlank, Strip, t);
      }
    }
    r
  }

  /** The skills extracted from a reply; anything but a string gives none. */
  function ExtractSkills(reply: Reply): (skills: seq<string>)
    ensures reply.NotStr? ==> skills == []
    ensures reply.Str? ==> |skills| <= Occurrences(reply.text, ',') + 1
    ensures forall t :: t in skills ==> t != [] && IsStripped(t)
  {
    match reply
    case Str(text) => StripNonBlank(Split(text, ','))
    case NotStr => []
  }

  /** Order and duplicates survive: the pieces of a concatenation give the
      skills of each part, one after the other. */
  lemma StripNonBlankAppend(a: seq<string>, b: seq<string>)
    ensures StripNonBlank(a + b) == StripNonBlank(a) + StripNonBlank(b)
  {
    KeepMapAppend(a, b, NonBlank, Strip);
  }

  /** A skill comes out exactly when some non-blank piece, with its
      surrounding whitespace removed and nothing else changed, equals it: in
      particular, skills are not lower-cased. */
  lemma SkillsComeFromPieces(pieces: seq<string>, t: string)
    ensures t in StripNonBlank(pieces) <==> exists p :: p in pieces && Strip(p) != [] && Strip(p) == t
  {
    KeepMapMember(pieces, NonBlank, Strip, t);
  }

  /** A single skill name without commas or surrounding whitespace comes back
      unchanged, upper-case letters included. */
  lemma SingleSkillKept(name: string)
    requires name != [] && IsStripped(name) && ',' !in name
    ensures ExtractSkills(Str(name)) == [name]
  {
    SplitFree(name, ',');
    StripPadded([], name, []);
    assert [] + name + [] == name;
  }

  /** Every character is whitespace or a comma. */
  predicate OnlySpaceAndCommas(s: string)
  {
    forall k :: 0 <= k < |s| ==> IsSpace(s[k]) || s[k] == ','
  }

  lemma {:induction false} BlankPieces(s: string)
    ensures (forall p :: p in Split(s, ',') ==> AllSpace(p)) <==> OnlySpaceAndCommas(s)
  {
    if s != [] {
      BlankPieces(s[1..]);
      var rest := Split(s[1..], ',');
      if s[0] != ',' {
        var first := [s[0]] + rest[0];
        assert Split(s, ',') == [first] + rest[1..];
        AllSpaceCons(s[0], rest[0]);
        assert rest == [rest[0]] + rest[1..];
      }
      if OnlySpaceAndCommas(s[1..]) && (IsSpace(s[0]) || s[0] == ',') {
        forall k | 0 <= k < |s| ensures IsSpace(s[k]) || s[k] == ',' {
          if k > 0 { assert s[k] == s[1..][k - 1]; }
        }
      }
    }
  }

  lemma {:induction false} NoSkillsIffBlank(pieces: seq<string>)
    ensures StripNonBlank(pieces) == [] <==> forall p :: p in pieces ==> AllSpace(p)
  {
    if pieces != [] {
      NoSkillsIffBlank(pieces[1..]);
      StripEmptyIffBlank(pieces[0]);
      assert forall p :: p in pieces <==> p == pieces[0] || p in pieces[1..];
    }
  }

  /** The reply yields no skill at all exactly when it consists of whitespace
      and commas only (the empty reply included). */
  lemma NoSkillsIffOnlySpaceAndCommas(text: string)
    ensures ExtractSkills(Str(text)) == [] <==> OnlySpaceAndCommas(text)
  {
    NoSkillsIffBlank(Split(text, ','));
    BlankPieces(text);
  }
}
