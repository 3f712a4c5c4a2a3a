/**
  The skill-list parser of the sidebar form: the free-text skills field is cut
  at every comma, each token is stripped, and empty tokens are dropped, keeping
  the order of the input and any repeated skill.
*/
module Skills {
  import opened Text

  /** A parsed skill: non-empty, already stripped, and free of commas. */
  predicate IsSkill(t: string) {
    t != [] && Trim(t) == t && ',' !in t
  }

  /** The stripped forms of the non-blank tokens, in order. */
  function KeepStripped(tokens: seq<string>): (r: seq<string>)
    ensures |r| <= |tokens|
    ensures forall k :: 0 <= k < |r| ==> r[k] != [] && Trim(r[k]) == r[k]
  {
    if tokens == [] then []
    else
      var t := Trim(tokens[0]);
      TrimIdempotent(tokens[0]);
      (if t != [] then [t] else []) + KeepStripped(tokens[1..])
  }

  /** Filtering a concatenation filters each part in turn. */
  lemma {:induction false} KeepStrippedAppend(x: seq<string>, y: seq<string>)
    ensures KeepStripped(x + y) == KeepStripped(x) + KeepStripped(y)
    decreases |x|
  {
    if x != [] {
      assert (x + y)[1..] == x[1..] + y;
      KeepStrippedAppend(x[1..], y);
    } else {
      assert x + y == y;
    }
  }

  /** Tokens that are already skills pass through unchanged. */
  lemma {:induction false} KeepStrippedOfSkills(tokens: seq<string>)
    requires forall k :: 0 <= k < |tokens| ==> tokens[k] != [] && Trim(tokens[k]) == tokens[k]
    ensures KeepStripped(tokens) == tokens
    decreases |tokens|
  {
    if tokens != [] {
      KeepStrippedOfSkills(tokens[1..]);
      assert [tokens[0]] + tokens[1..] == tokens;
    }
  }

  /** `[s.strip() for s in text.split(",") if s.strip()]`. */
  function ParseSkills(text: string): (skills: seq<string>)
    ensures forall k :: 0 <= k < |skills| ==> IsSkill(skills[k])
  {
    var tokens := Split(text, ",");
    SplitPieces(text, ",");
    forall m | 0 <= m < |tokens|
      ensures ',' !in tokens[m]
    {
      ContainsChar(tokens[m], ',');
    }
    KeepStrippedLacks(tokens, ',');
    KeepStripped(tokens)
  }

  /** A character absent from every token is absent from every kept token. */
  lemma {:induction false} KeepStrippedLacks(tokens: seq<string>, c: char)
    requires forall m :: 0 <= m < |tokens| ==> c !in tokens[m]
    ensures forall k :: 0 <= k < |KeepStripped(tokens)| ==> c !in KeepStripped(tokens)[k]
    decreases |tokens|
  {
    if tokens != [] {
      KeepStrippedLacks(tokens[1..], c);
      if c in Trim(tokens[0]) {
        TrimChars(tokens[0], c);
      }
    }
  }

  /** A comma splits the field in two: the skills before it, then the skills
      after it. Order and repetitions are therefore kept. */
  lemma ParseSkillsAtComma(a: string, b: string)
    ensures ParseSkills(a + "," + b) == ParseSkills(a) + ParseSkills(b)
  {
    SplitAtChar(a, ',', b);
    assert a + "," + b == a + [','] + b;
    KeepStrippedAppend(Split(a, ","), Split(b, ","));
  }

  /** A comma-free field yields its stripped text, or nothing when blank. */
  lemma ParseSkillsToken(t: string)
    requires ',' !in t
    ensures IsBlank(t) ==> ParseSkills(t) == []
    ensures !IsBlank(t) ==> ParseSkills(t) == [Trim(t)]
  {
    FindChar(t, ',');
    SplitStep(t, ",");
    assert Split(t, ",") == [t];
  }

  /** Joining skills with commas and parsing the result gives them back. */
  lemma ParseJoinRoundTrip(skills: seq<string>)
    requires forall k :: 0 <= k < |skills| ==> IsSkill(skills[k])
    ensures ParseSkills(Join(skills, ",")) == skills
  {
    if skills == [] {
      assert Join(skills, ",") == "";
      ParseSkillsToken("");
    } else {
      forall k | 0 <= k < |skills|
        ensures Separable(skills[k], ",")
      {
        SeparableByChar(skills[k], ',');
      }
      SplitJoin(skills, ",");
      KeepStrippedOfSkills(skills);
    }
  }

  /** Parsing is idempotent: re-joining parsed skills and parsing again
      changes nothing. */
  lemma ParseSkillsIdempotent(text: string)
    ensures ParseSkills(Join(ParseSkills(text), ",")) == ParseSkills(text)
  {
    ParseJoinRoundTrip(ParseSkills(text));
  }

  /** A skill has no whitespace at either end. */
  lemma SkillEnds(a: string)
    requires IsSkill(a)
    ensures !IsSpace(a[0]) && !IsSpace(a[|a| - 1])
  {
    assert Trim(a) == a;
  }

  /** Padding a skill with one space on either side does not change how it
      parses. */
  lemma ParsePadded(a: string, t: string)
    requires IsSkill(a) && (t == " " + a || t == " " + a + " ")
    ensures ParseSkills(t) == [a]
  {
    SkillEnds(a);
    assert StrippedAt(t, a, 1);
    TrimUnique(t, a, 1);
    assert ',' !in t;
    ParseSkillsToken(t);
  }

  /** A skill field with padding, an empty entry and a repeated skill:
      `" a, , b ,b"` parses to `[a, b, b]` — blanks go, order and
      repetitions stay. */
  lemma ParseSkillsExample(a: string, b: string)
    requires IsSkill(a) && IsSkill(b)
    ensures ParseSkills(" " + a + ", , " + b + " ," + b) == [a, b, b]
  {
    var t1, t2, t3, t4 := " " + a, " ", " " + b + " ", b;
    ExampleField(a, b);
    ParseFourTokens(t1, t2, t3, t4);
    ExampleTokens(a, b);
    Regroup4Example(ParseSkills(t1), ParseSkills(t2), ParseSkills(t3), ParseSkills(t4), a, b);
  }

  /** The example field cut at its commas. Kept apart from the example so
      that the string regrouping is proved without the parser in scope. */
  lemma ExampleField(a: string, b: string)
    ensures " " + a + ", , " + b + " ," + b == (" " + a) + "," + " " + "," + (" " + b + " ") + "," + b
  {
  }

  lemma ExampleTokens(a: string, b: string)
    requires IsSkill(a) && IsSkill(b)
    ensures ParseSkills(" " + a) == [a] && ParseSkills(" ") == []
    ensures ParseSkills(" " + b + " ") == [b] && ParseSkills(b) == [b]
  {
    ParsePadded(a, " " + a);
    ParseSkillsToken(" ");
    ParsePadded(b, " " + b + " ");
    ParseSkill(b);
  }

  /** A skill on its own parses to itself. */
  lemma ParseSkill(a: string)
    requires IsSkill(a)
    ensures ParseSkills(a) == [a]
  {
    SkillEnds(a);
    ParseSkillsToken(a);
  }

  /** The per-token results put together; kept apart for the same reason. */
  lemma Regroup4Example(p1: seq<string>, p2: seq<string>, p3: seq<string>, p4: seq<string>, a: string, b: string)
    requires p1 == [a] && p2 == [] && p3 == [b] && p4 == [b]
    ensures p1 + p2 + p3 + p4 == [a, b, b]
  {
  }

  /** Four comma-separated tokens parse token by token. */
  lemma ParseFourTokens(t1: string, t2: string, t3: string, t4: string)
    ensures ParseSkills(t1 + "," + t2 + "," + t3 + "," + t4)
         == ParseSkills(t1) + ParseSkills(t2) + ParseSkills(t3) + ParseSkills(t4)
  {
    var s34 := t3 + "," + t4;
    var s234 := t2 + "," + s34;
    assert t1 + "," + t2 + "," + t3 + "," + t4 == t1 + "," + s234;
    var p1, p2, p3, p4 := ParseSkills(t1), ParseSkills(t2), ParseSkills(t3), ParseSkills(t4);
    ParseSkillsAtComma(t3, t4);
    ParseSkillsAtComma(t2, s34);
    ParseSkillsAtComma(t1, s234);
    assert ParseSkills(t1 + "," + s234) == p1 + (p2 + (p3 + p4));
    Regroup4(p1, p2, p3, p4);
  }

  /** Regrouping four lists, proved apart from the parser. */
  lemma Regroup4(a: seq<string>, b: seq<string>, c: seq<string>, d: seq<string>)
    ensures a + (b + (c + d)) == a + b + c + d
  {
  }
}
