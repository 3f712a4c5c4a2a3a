/**
  Role-aware scoring: the role title is bucketed into a role category by
  case-insensitive substring tests, the declared skills are matched against
  the category's keyword list, and three bounded indicators are derived:
  career readiness, the promotion indicator and the peer percentile.
*/
module Scoring {
  import opened Text

  datatype RoleCategory = HR | DATA | GENERIC

  /** Keyword lists per role category; the generic category has none. */
  function Keywords(category: RoleCategory): (kws: seq<string>)
    ensures kws == [] <==> category == GENERIC
    ensures forall k :: 0 <= k < |kws| ==> kws[k] != []
  {
    match category
    case HR => ["Recruitment", "HRMS", "Compliance", "Employee Relations", "Policy"]
    case DATA => ["Python", "ML", "AI", "SQL", "Statistics", "NLP"]
    case GENERIC => []
  }

  // ---------------------------------------------------------------------------
  // Role classifier
  // ---------------------------------------------------------------------------

  /** Classifies a role title. The title is upper-cased and searched for "HR"
      first, then for "DATA" or "SCIENTIST"; the first test that succeeds wins.
      Stated without case mapping: HR exactly when "HR" occurs ignoring case;
      DATA exactly when it does not but "DATA" or "SCIENTIST" does. */
  function DetectRoleType(role: string): (category: RoleCategory)
    ensures category == HR <==> ContainsIgnoringCase(role, "HR")
    ensures category == DATA <==>
      !ContainsIgnoringCase(role, "HR")
      && (ContainsIgnoringCase(role, "DATA") || ContainsIgnoringCase(role, "SCIENTIST"))
    ensures category == GENERIC <==>
      !ContainsIgnoringCase(role, "HR")
      && !ContainsIgnoringCase(role, "DATA") && !ContainsIgnoringCase(role, "SCIENTIST")
  {
    assert Upper("HR") == "HR" && Upper("DATA") == "DATA" && Upper("SCIENTIST") == "SCIENTIST";
    UpperSearchIgnoresCase(role, "HR");
    UpperSearchIgnoresCase(role, "DATA");
    UpperSearchIgnoresCase(role, "SCIENTIST");
    var r := Upper(role);
    if Contains(r, "HR") then HR
    else if Contains(r, "DATA") || Contains(r, "SCIENTIST") then DATA
    else GENERIC
  }

  /** The classifier does not see letter case: a title, its upper-cased form
      and its lower-cased form fall into the same category. */
  lemma DetectIgnoresCase(role: string)
    ensures DetectRoleType(Upper(role)) == DetectRoleType(role)
    ensures DetectRoleType(Lower(role)) == DetectRoleType(role)
  {
    UpperIdempotent(role);
    UpperOfLower(role);
  }

  /** "HR" is tested first: a title mentioning "HR" in any case stays an HR
      role whatever surrounds it, including words such as "Data Scientist"
      that would otherwise make it a DATA role. */
  lemma HrTakesPriority(role: string, before: string, after: string)
    requires ContainsIgnoringCase(role, "HR")
    ensures DetectRoleType(before + role + after) == HR
  {
    var i: nat :| i <= |role| && OccursAtIgnoringCase(role, "HR", i);
    var longer := before + role + after;
    var j := |before| + i;
    assert OccursAtIgnoringCase(longer, "HR", j) by {
      assert longer[j] == role[i] && longer[j + 1] == role[i + 1];
    }
  }

  /** "Senior HR Manager" is an HR role. */
  lemma ExampleSeniorHrManager()
    ensures DetectRoleType("Senior HR Manager") == HR
  {
    assert OccursAtIgnoringCase("Senior HR Manager", "HR", 7);
  }

  /** "CHROME" contains "HR": the substring test is not a word test. */
  lemma ExampleChromeDeveloper()
    ensures DetectRoleType("Chrome Developer") == HR
  {
    assert OccursAtIgnoringCase("Chrome Developer", "HR", 1);
  }

  lemma ExampleDataScientist()
    ensures DetectRoleType("Data Scientist II") == DATA
  {
    var role := "Data Scientist II";
    assert 'h' !in role && 'H' !in role;
    NotContainedIgnoringCase(role, "HR", 0);
    assert OccursAtIgnoringCase(role, "DATA", 0);
  }

  lemma ExampleSoftwareEngineer()
    ensures DetectRoleType("Software Engineer") == GENERIC
  {
    var role := "Software Engineer";
    SoftwareEngineerLetters(role);
    NotContainedIgnoringCase(role, "HR", 0);
    NotContainedIgnoringCase(role, "DATA", 0);
    NotContainedIgnoringCase(role, "SCIENTIST", 1);
  }

  lemma SoftwareEngineerLetters(role: string)
    requires role == "Software Engineer"
    ensures 'h' !in role && 'H' !in role && 'd' !in role && 'D' !in role && 'c' !in role && 'C' !in role
  {
  }

  /** A needle whose `k`-th character is absent from the text in both cases
      does not occur in it, ignoring case. */
  lemma NotContainedIgnoringCase(hay: string, needle: string, k: nat)
    requires k < |needle| && 'A' <= needle[k] <= 'Z'
    requires needle[k] !in hay && (needle[k] as int + 32) as char !in hay
    ensures !ContainsIgnoringCase(hay, needle)
  {
    forall i: nat | i <= |hay|
      ensures !OccursAtIgnoringCase(hay, needle, i)
    {
      if i + |needle| <= |hay| {
        assert hay[i + k] in hay;
        assert !SameLetter(hay[i + k], needle[k]);
      }
    }
  }

  // ---------------------------------------------------------------------------
  // Skill match
  // ---------------------------------------------------------------------------

  /** `any(c.lower() in s.lower() for c in core)`. */
  predicate MatchesAnyKeyword(skill: string, keywords: seq<string>) {
    exists k :: 0 <= k < |keywords| && Contains(Lower(skill), Lower(keywords[k]))
  }

  /** The keyword test is a case-insensitive search, stated without case
      mapping. */
  lemma MatchesAnyKeywordIgnoresCase(skill: string, keywords: seq<string>)
    ensures MatchesAnyKeyword(skill, keywords) <==>
      exists k :: 0 <= k < |keywords| && ContainsIgnoringCase(skill, keywords[k])
  {
    forall k | 0 <= k < |keywords|
      ensures Contains(Lower(skill), Lower(keywords[k])) <==> ContainsIgnoringCase(skill, keywords[k])
    {
      LowerSearchIgnoresCase(skill, keywords[k]);
    }
  }

  /** `sum(1 for s in skills if any(...))`: each skill counts at most once,
      however many keywords it contains. */
  function CountMatches(skills: seq<string>, keywords: seq<string>): (n: nat)
    ensures n <= |skills|
    ensures keywords == [] ==> n == 0
  {
    if skills == [] then 0
    else (if MatchesAnyKeyword(skills[0], keywords) then 1 else 0) + CountMatches(skills[1..], keywords)
  }

  /** The count over a concatenation is the sum of the counts. */
  lemma {:induction false} CountMatchesAppend(x: seq<string>, y: seq<string>, keywords: seq<string>)
    ensures CountMatches(x + y, keywords) == CountMatches(x, keywords) + CountMatches(y, keywords)
    decreases |x|
  {
    if x == [] {
      assert x + y == y;
    } else {
      assert (x + y)[1..] == x[1..] + y;
      CountMatchesAppend(x[1..], y, keywords);
    }
  }

  /** A single skill contributes one exactly when it contains some keyword. */
  lemma CountMatchesSingle(skill: string, keywords: seq<string>)
    ensures CountMatches([skill], keywords) == if MatchesAnyKeyword(skill, keywords) then 1 else 0
  {
    assert [skill][1..] == [];
  }

  /** Skill match of the role category: between zero and the number of
      skills, and zero for the generic category. */
  function SkillMatch(category: RoleCategory, skills: seq<string>): (n: nat)
    ensures n <= |skills|
    ensures category == GENERIC ==> n == 0
  {
    CountMatches(skills, Keywords(category))
  }

  /** Declaring one more skill never lowers the skill match, and raises it
      by at most one. */
  lemma SkillMatchGrows(category: RoleCategory, skills: seq<string>, extra: string)
    ensures SkillMatch(category, skills) <= SkillMatch(category, skills + [extra]) <= SkillMatch(category, skills) + 1
  {
    CountMatchesAppend(skills, [extra], Keywords(category));
    CountMatchesSingle(extra, Keywords(category));
  }

  // ---------------------------------------------------------------------------
  // Readiness indicators
  // ---------------------------------------------------------------------------

  const BASE: int := 60
  const SKILL_WEIGHT: int := 5
  const EXPERIENCE_WEIGHT: int := 3
  const CAP: int := 92
  const PEER_MIN: int := 60
  const PEER_MAX: int := 95

  /** `min(60 + skill_match * 5 + experience * 3, 92)`: the weighted sum,
      capped. */
  function Readiness(skillMatch: int, experience: int): (r: int)
    ensures r <= CAP
    ensures r <= BASE + SKILL_WEIGHT * skillMatch + EXPERIENCE_WEIGHT * experience
    ensures r == CAP || r == BASE + SKILL_WEIGHT * skillMatch + EXPERIENCE_WEIGHT * experience
    ensures skillMatch >= 0 && experience >= 0 ==> BASE <= r
  {
    var raw := 60 + skillMatch * 5 + experience * 3;
    if raw < 92 then raw else 92
  }

  /** Readiness never falls when skill match or experience grows. */
  lemma ReadinessMonotone(m1: int, e1: int, m2: int, e2: int)
    requires m1 <= m2 && e1 <= e2
    ensures Readiness(m1, e1) <= Readiness(m2, e2)
  {
  }

  /** `int(readiness * 0.85)`: 85 per cent of the readiness, truncated toward
      zero. For a non-negative readiness it is the floor and never exceeds the
      readiness. */
  function Promotion(readiness: int): (p: int)
    ensures readiness >= 0 ==> 0 <= p <= readiness && p * 100 <= readiness * 85 < p * 100 + 100
    ensures readiness < 0 ==> readiness <= p <= 0 && readiness * 85 <= p * 100 < readiness * 85 + 100
  {
    if readiness >= 0 then readiness * 85 / 100 else -((-readiness) * 85 / 100)
  }

  /** `max(60, min(95, 65 + (readiness - 60)))`: five points above the
      readiness, kept within [60, 95]. */
  function PeerPercentile(readiness: int): (p: int)
    ensures PEER_MIN <= p <= PEER_MAX
    ensures PEER_MIN <= readiness + 5 <= PEER_MAX ==> p == readiness + 5
    ensures readiness + 5 < PEER_MIN ==> p == PEER_MIN
    ensures readiness + 5 > PEER_MAX ==> p == PEER_MAX
  {
    var shifted := 65 + (readiness - 60);
    var upper := if 95 < shifted then 95 else shifted;
    if 60 < upper then upper else 60
  }

  datatype Scores = Scores(readiness: int, promotion: int, peerPercentile: int)

  /** `compute_scores` followed by the peer percentile: classify the role,
      count matching skills, then derive the three indicators. */
  function ComputeScores(role: string, skills: seq<string>, experience: int): (s: Scores)
    ensures experience >= 0 ==> BASE <= s.readiness <= CAP
    ensures experience >= 0 ==> 0 <= s.promotion <= s.readiness
    ensures experience >= 0 ==> s.peerPercentile == if s.readiness + 5 <= PEER_MAX then s.readiness + 5 else PEER_MAX
    ensures PEER_MIN <= s.peerPercentile <= PEER_MAX
    ensures s.readiness <= BASE + SKILL_WEIGHT * |skills| + EXPERIENCE_WEIGHT * experience
    ensures DetectRoleType(role) == GENERIC ==> s.readiness <= BASE + EXPERIENCE_WEIGHT * experience
  {
    var readiness := Readiness(SkillMatch(DetectRoleType(role), skills), experience);
    Scores(readiness, Promotion(readiness), PeerPercentile(readiness))
  }

  /** Worked example: an HR Manager with skills Recruitment and Policy and
      five years of experience matches two keywords, so readiness is
      min(60 + 10 + 15, 92) = 85, promotion 72 and peer percentile 90. */
  lemma ExampleHrManager()
    ensures SkillMatch(DetectRoleType("HR Manager"), ["Recruitment", "Policy"]) == 2
    ensures ComputeScores("HR Manager", ["Recruitment", "Policy"], 5) == Scores(85, 72, 90)
  {
    assert OccursAtIgnoringCase("HR Manager", "HR", 0);
    var kws := Keywords(HR);
    assert OccursAt(Lower(kws[0]), Lower(kws[0]), 0);
    assert MatchesAnyKeyword("Recruitment", kws);
    assert OccursAt(Lower(kws[4]), Lower(kws[4]), 0);
    assert MatchesAnyKeyword("Policy", kws);
    assert ["Recruitment", "Policy"] == ["Recruitment"] + ["Policy"];
    CountMatchesAppend(["Recruitment"], ["Policy"], kws);
    CountMatchesSingle("Recruitment", kws);
    CountMatchesSingle("Policy", kws);
  }
}
