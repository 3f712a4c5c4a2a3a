/**
  ASCII models of the Python string operations the career platform is built on:
  `str.isspace` and `str.strip()`, `str.upper()` and `str.lower()`, the substring
  test `needle in hay`, and `str.split(sep)` with its inverse `sep.join(parts)`
  for a non-empty separator.
*/
module Text {

  datatype Option<T> = None | Some(value: T)

  // ---------------------------------------------------------------------------
  // Whitespace and strip
  // ---------------------------------------------------------------------------

  /** Python's `str.isspace` on ASCII: tab, line feed, vertical tab, form feed,
      carriage return, the separators 0x1C-0x1F, and the space character. */
  predicate IsSpace(c: char) {
    c == ' ' || (9 <= c as int <= 13) || (28 <= c as int <= 31)
  }

  /** `not s.strip()` in Python: the string holds whitespace and nothing else. */
  predicate IsBlank(s: string) {
    forall i :: 0 <= i < |s| ==> IsSpace(s[i])
  }

  /** Index of the first non-whitespace character at or after `i`, or `|s|`. */
  function SkipSpace(s: string, i: nat): (k: nat)
    requires i <= |s|
    ensures i <= k <= |s|
    ensures k == |s| || !IsSpace(s[k])
    decreases |s| - i
  {
    if i < |s| && IsSpace(s[i]) then SkipSpace(s, i + 1) else i
  }

  /** What `SkipSpace` skips is whitespace. */
  lemma {:induction false} SkipSpaceBlank(s: string, i: nat)
    requires i <= |s|
    ensures IsBlank(s[i..SkipSpace(s, i)])
    decreases |s| - i
  {
    if i < |s| && IsSpace(s[i]) {
      var k := SkipSpace(s, i + 1);
      SkipSpaceBlank(s, i + 1);
      assert s[i..k] == [s[i]] + s[i + 1..k];
    }
  }

  /** Index just past the last non-whitespace character of `s[lo..j]`, or `lo`. */
  function SkipSpaceBack(s: string, lo: nat, j: nat): (k: nat)
    requires lo <= j <= |s|
    ensures lo <= k <= j
    ensures k == lo || !IsSpace(s[k - 1])
    decreases j
  {
    if lo < j && IsSpace(s[j - 1]) then SkipSpaceBack(s, lo, j - 1) else j
  }

  /** What `SkipSpaceBack` skips is whitespace. */
  lemma {:induction false} SkipSpaceBackBlank(s: string, lo: nat, j: nat)
    requires lo <= j <= |s|
    ensures IsBlank(s[SkipSpaceBack(s, lo, j)..j])
    decreases j
  {
    if lo < j && IsSpace(s[j - 1]) {
      var k := SkipSpaceBack(s, lo, j - 1);
      SkipSpaceBackBlank(s, lo, j - 1);
      assert s[k..j] == s[k..j - 1] + [s[j - 1]];
    }
  }

  /** `s` is what remains of `t` once a blank prefix and a blank suffix are cut. */
  predicate StrippedAt(t: string, s: string, i: nat) {
    i + |s| <= |t| && s == t[i..i + |s|] && IsBlank(t[..i]) && IsBlank(t[i + |s|..])
  }

  /** Python's `s.strip()` with no argument. */
  function Trim(s: string): (r: string)
    ensures r == [] <==> IsBlank(s)
    ensures r != [] ==> !IsSpace(r[0]) && !IsSpace(r[|r| - 1])
  {
    var i := SkipSpace(s, 0);
    var j := SkipSpaceBack(s, i, |s|);
    TrimBlank(s, i, j);
    s[i..j]
  }

  lemma TrimBlank(s: string, i: nat, j: nat)
    requires i == SkipSpace(s, 0) && j == SkipSpaceBack(s, i, |s|)
    ensures i == j <==> IsBlank(s)
  {
    SkipSpaceBlank(s, 0);
    SkipSpaceBackBlank(s, i, |s|);
    assert s[0..i] == s[..i];
    if i == j {
      assert s == s[..i] + s[j..|s|];
      BlankConcat(s[..i], s[j..|s|]);
    }
  }

  /** Two blank strings make a blank string. */
  lemma BlankConcat(a: string, b: string)
    requires IsBlank(a) && IsBlank(b)
    ensures IsBlank(a + b)
  {
    forall m | 0 <= m < |a + b|
      ensures IsSpace((a + b)[m])
    {
      if m < |a| {
        assert (a + b)[m] == a[m];
      } else {
        assert (a + b)[m] == b[m - |a|];
      }
    }
  }

  /** `Trim(s)` is `s` with its leading and trailing whitespace cut. */
  lemma TrimStrips(s: string)
    ensures StrippedAt(s, Trim(s), SkipSpace(s, 0))
  {
    var i := SkipSpace(s, 0);
    var j := SkipSpaceBack(s, i, |s|);
    SkipSpaceBlank(s, 0);
    SkipSpaceBackBlank(s, i, |s|);
    assert s[0..i] == s[..i];
    assert s[j..|s|] == s[j..];
  }

  /** A string with no whitespace at either end is its own strip. */
  lemma TrimOfTrimmed(s: string)
    requires s == [] || (!IsSpace(s[0]) && !IsSpace(s[|s| - 1]))
    ensures Trim(s) == s
  {
    if s != [] {
      assert SkipSpace(s, 0) == 0;
      assert SkipSpaceBack(s, 0, |s|) == |s|;
    }
  }

  /** Stripping twice is stripping once. */
  lemma TrimIdempotent(s: string)
    ensures Trim(Trim(s)) == Trim(s)
  {
    TrimOfTrimmed(Trim(s));
  }

  /** Strip is determined by its defining property: any blank-bounded infix
      of `s` with no whitespace at its ends is `Trim(s)`. */
  lemma TrimUnique(s: string, r: string, i: nat)
    requires StrippedAt(s, r, i)
    requires r == [] || (!IsSpace(r[0]) && !IsSpace(r[|r| - 1]))
    ensures Trim(s) == r
  {
    var t := Trim(s);
    var i' := SkipSpace(s, 0);
    TrimStrips(s);
    if r == [] {
      assert s == s[..i] + s[i..];
      assert IsBlank(s);
    } else {
      assert s[i] == r[0];
      assert s[i'] == t[0];
      assert s[i + |r| - 1] == r[|r| - 1];
      assert s[i' + |t| - 1] == t[|t| - 1];
    }
  }

  /** A stripped text behind one leading space strips back to itself. */
  lemma TrimPadded(t: string)
    requires Trim(t) == t
    ensures Trim(" " + t) == t
  {
    var s := " " + t;
    if t == [] {
      assert s == " ";
      assert IsBlank(s);
    } else {
      assert s[1..1 + |t|] == t;
      assert s[..1] == " ";
      assert s[1 + |t|..] == [];
      assert StrippedAt(s, t, 1);
      TrimUnique(s, t, 1);
    }
  }

  /** Every character of `Trim(s)` comes from `s`. */
  lemma TrimChars(s: string, c: char)
    requires c in Trim(s)
    ensures c in s
  {
    var i := SkipSpace(s, 0);
    TrimStrips(s);
    var k :| 0 <= k < |Trim(s)| && Trim(s)[k] == c;
    assert s[i + k] == c;
  }

  /** Every slice of a blank string is blank. */
  lemma BlankSlice(s: string, i: nat, j: nat)
    requires IsBlank(s) && i <= j <= |s|
    ensures IsBlank(s[i..j])
  {
    forall k | 0 <= k < j - i
      ensures IsSpace(s[i..j][k])
    {
      assert s[i..j][k] == s[i + k];
    }
  }

  // ---------------------------------------------------------------------------
  // ASCII case mapping
  // ---------------------------------------------------------------------------

  /** Python's `str.upper` on one ASCII character. */
  function UpperChar(c: char): char {
    if 'a' <= c <= 'z' then (c as int - 32) as char else c
  }

  /** Python's `str.lower` on one ASCII character. */
  function LowerChar(c: char): char {
    if 'A' <= c <= 'Z' then (c as int + 32) as char else c
  }

  /** Python's `str.upper` on ASCII: every character keeps its letter, and
      no lower-case letter remains. */
  function Upper(s: string): (r: string)
    ensures |r| == |s|
    ensures forall i :: 0 <= i < |s| ==> SameLetter(s[i], r[i]) && !('a' <= r[i] <= 'z')
  {
    seq(|s|, i requires 0 <= i < |s| => UpperChar(s[i]))
  }

  /** Python's `str.lower` on ASCII: every character keeps its letter, and
      no upper-case letter remains. */
  function Lower(s: string): (r: string)
    ensures |r| == |s|
    ensures forall i :: 0 <= i < |s| ==> SameLetter(s[i], r[i]) && !('A' <= r[i] <= 'Z')
  {
    seq(|s|, i requires 0 <= i < |s| => LowerChar(s[i]))
  }

  /** Two characters are the same letter up to ASCII case, or simply equal. */
  predicate SameLetter(a: char, b: char) {
    a == b
    || ('a' <= a <= 'z' && b as int == a as int - 32)
    || ('A' <= a <= 'Z' && b as int == a as int + 32)
  }

  /** Upper-casing and lower-casing both identify exactly the characters that
      agree up to ASCII case. */
  lemma CaseMapsAgree(a: char, b: char)
    ensures UpperChar(a) == UpperChar(b) <==> SameLetter(a, b)
    ensures LowerChar(a) == LowerChar(b) <==> SameLetter(a, b)
  {
  }

  lemma UpperIdempotent(s: string)
    ensures Upper(Upper(s)) == Upper(s)
  {
  }

  lemma UpperOfLower(s: string)
    ensures Upper(Lower(s)) == Upper(s)
  {
  }

  // ---------------------------------------------------------------------------
  // Substrings
  // ---------------------------------------------------------------------------

  /** `needle` occurs in `hay` starting at index `i`. */
  predicate OccursAt(hay: string, needle: string, i: nat) {
    i + |needle| <= |hay| && hay[i..i + |needle|] == needle
  }

  /** Python's `needle in hay`. */
  predicate Contains(hay: string, needle: string) {
    exists i: nat :: i <= |hay| && OccursAt(hay, needle, i)
  }

  /** `needle` occurs at index `i` of `hay` when case is ignored. */
  predicate OccursAtIgnoringCase(hay: string, needle: string, i: nat) {
    i + |needle| <= |hay| && forall k :: 0 <= k < |needle| ==> SameLetter(hay[i + k], needle[k])
  }

  /** Case-insensitive substring test, stated without any case mapping. */
  predicate ContainsIgnoringCase(hay: string, needle: string) {
    exists i: nat :: i <= |hay| && OccursAtIgnoringCase(hay, needle, i)
  }

  lemma OccursAtUpper(hay: string, needle: string, i: nat)
    ensures OccursAt(Upper(hay), Upper(needle), i) <==> OccursAtIgnoringCase(hay, needle, i)
  {
    if i + |needle| <= |hay| {
      var w := Upper(hay)[i..i + |needle|];
      forall k | 0 <= k < |needle|
        ensures w[k] == Upper(needle)[k] <==> SameLetter(hay[i + k], needle[k])
      {
        CaseMapsAgree(hay[i + k], needle[k]);
      }
      if OccursAtIgnoringCase(hay, needle, i) {
        assert w == Upper(needle);
      }
    }
  }

  lemma OccursAtLower(hay: string, needle: string, i: nat)
    ensures OccursAt(Lower(hay), Lower(needle), i) <==> OccursAtIgnoringCase(hay, needle, i)
  {
    if i + |needle| <= |hay| {
      var w := Lower(hay)[i..i + |needle|];
      forall k | 0 <= k < |needle|
        ensures w[k] == Lower(needle)[k] <==> SameLetter(hay[i + k], needle[k])
      {
        CaseMapsAgree(hay[i + k], needle[k]);
      }
      if OccursAtIgnoringCase(hay, needle, i) {
        assert w == Lower(needle);
      }
    }
  }

  /** Searching the upper-cased text for the upper-cased needle, as the role
      classifier does, is exactly a case-insensitive search. */
  lemma UpperSearchIgnoresCase(hay: string, needle: string)
    ensures Contains(Upper(hay), Upper(needle)) <==> ContainsIgnoringCase(hay, needle)
  {
    forall i: nat
      ensures OccursAt(Upper(hay), Upper(needle), i) <==> OccursAtIgnoringCase(hay, needle, i)
    {
      OccursAtUpper(hay, needle, i);
    }
  }

  /** Searching the lower-cased text for the lower-cased needle, as the skill
      scorer does, is exactly a case-insensitive search. */
  lemma LowerSearchIgnoresCase(hay: string, needle: string)
    ensures Contains(Lower(hay), Lower(needle)) <==> ContainsIgnoringCase(hay, needle)
  {
    forall i: nat
      ensures OccursAt(Lower(hay), Lower(needle), i) <==> OccursAtIgnoringCase(hay, needle, i)
    {
      OccursAtLower(hay, needle, i);
    }
  }

  /** A one-character needle occurs exactly when the character does. */
  lemma ContainsChar(s: string, c: char)
    ensures Contains(s, [c]) <==> c in s
  {
    if c in s {
      var i :| 0 <= i < |s| && s[i] == c;
      assert s[i..i + 1] == [c];
      assert OccursAt(s, [c], i);
    }
    if Contains(s, [c]) {
      var i: nat :| i <= |s| && OccursAt(s, [c], i);
      assert s[i..i + 1][0] == s[i];
    }
  }

  /** A needle containing a character the text lacks does not occur in it. */
  lemma MissingCharNotContained(s: string, needle: string, c: char)
    requires c !in s && c in needle
    ensures !Contains(s, needle)
  {
    forall i: nat | i <= |s|
      ensures !OccursAt(s, needle, i)
    {
      var k :| 0 <= k < |needle| && needle[k] == c;
      if i + |needle| <= |s| {
        assert s[i..i + |needle|][k] == s[i + k];
      }
    }
  }

  /** An occurrence that ends inside `s` is unaffected by what follows `s`. */
  lemma OccursAtPrefix(s: string, x: string, d: string, i: nat)
    requires i + |d| <= |s|
    ensures OccursAt(s + x, d, i) <==> OccursAt(s, d, i)
  {
    assert (s + x)[i..i + |d|] == s[i..i + |d|];
  }

  // ---------------------------------------------------------------------------
  // split and join
  // ---------------------------------------------------------------------------

  /** Leftmost occurrence of `d` in `s` at or after index `i`. */
  function FindFrom(s: string, d: string, i: nat): (r: Option<nat>)
    requires |d| > 0 && i <= |s|
    ensures r.Some? ==> i <= r.value && OccursAt(s, d, r.value)
    ensures r.Some? ==> forall j: nat :: i <= j < r.value ==> !OccursAt(s, d, j)
    ensures r.None? ==> forall j: nat :: i <= j ==> !OccursAt(s, d, j)
    decreases |s| - i
  {
    if i + |d| > |s| then None
    else if OccursAt(s, d, i) then Some(i)
    else FindFrom(s, d, i + 1)
  }

  /** Python's `d.join(parts)`. */
  function Join(parts: seq<string>, d: string): string
  {
    if |parts| == 0 then []
    else if |parts| == 1 then parts[0]
    else parts[0] + d + Join(parts[1..], d)
  }

  /** A join begins with its first piece. */
  lemma JoinStartsWith(parts: seq<string>, d: string)
    requires |parts| >= 1
    ensures |parts[0]| <= |Join(parts, d)| && Join(parts, d)[..|parts[0]|] == parts[0]
  {
  }

  /** A join is blank only if every piece is blank. */
  lemma {:induction false} JoinBlank(parts: seq<string>, d: string)
    requires IsBlank(Join(parts, d))
    ensures forall k :: 0 <= k < |parts| ==> IsBlank(parts[k])
    decreases |parts|
  {
    if |parts| == 1 {
    } else if |parts| > 1 {
      var j := Join(parts, d);
      var tail := Join(parts[1..], d);
      assert j == parts[0] + d + tail;
      BlankSlice(j, 0, |parts[0]|);
      assert j[..|parts[0]|] == parts[0];
      BlankSlice(j, |parts[0]| + |d|, |j|);
      assert j[|parts[0]| + |d|..] == tail;
      JoinBlank(parts[1..], d);
      forall k | 1 <= k < |parts|
        ensures IsBlank(parts[k])
      {
        assert parts[k] == parts[1..][k - 1];
      }
    }
  }

  /** Joining a piece in front of a non-empty list. */
  lemma JoinCons(p: string, rest: seq<string>, d: string)
    requires |rest| >= 1
    ensures Join([p] + rest, d) == p + d + Join(rest, d)
  {
    assert ([p] + rest)[1..] == rest;
  }

  /** An empty last piece leaves the separator at the end of the join. */
  lemma {:induction false} JoinAppendEmpty(parts: seq<string>, d: string)
    requires |parts| >= 1
    ensures Join(parts + [""], d) == Join(parts, d) + d
    decreases |parts|
  {
    if |parts| == 1 {
      assert parts + [""] == [parts[0], ""];
      assert [parts[0], ""][1..] == [""];
    } else {
      assert (parts + [""])[1..] == parts[1..] + [""];
      JoinAppendEmpty(parts[1..], d);
    }
  }

  /** Python's `s.split(d)` for a non-empty separator: cut at every leftmost,
      non-overlapping occurrence of `d`. */
  function Split(s: string, d: string): (parts: seq<string>)
    requires |d| > 0
    ensures |parts| >= 1
    decreases |s|
  {
    match FindFrom(s, d, 0)
    case None => [s]
    case Some(j) => [s[..j]] + Split(s[j + |d|..], d)
  }

  /** The pieces of a split never contain the separator, and joining them
      back with the separator restores the original text. */
  lemma {:induction false} SplitPieces(s: string, d: string)
    requires |d| > 0
    ensures Join(Split(s, d), d) == s
    ensures forall k :: 0 <= k < |Split(s, d)| ==> !Contains(Split(s, d)[k], d)
    decreases |s|
  {
    match FindFrom(s, d, 0)
    case None =>
    case Some(j) =>
      var rest := Split(s[j + |d|..], d);
      SplitPieces(s[j + |d|..], d);
      var parts := [s[..j]] + rest;
      assert Split(s, d) == parts;
      assert parts[1..] == rest;
      assert s == s[..j] + d + s[j + |d|..] by {
        assert s[j..j + |d|] == d;
      }
      forall p: nat | p <= j
        ensures !OccursAt(s[..j], d, p)
      {
        if p + |d| <= j {
          OccursAtPrefix(s[..j], s[j..], d, p);
          assert s[..j] + s[j..] == s;
        }
      }
      assert forall k :: 1 <= k < |parts| ==> parts[k] == rest[k - 1];
  }

  /** A piece `p` is separable by `d` when no occurrence of `d` starts inside `p`
      even once `d` is appended: `p` then survives a join followed by a split. */
  predicate Separable(p: string, d: string) {
    forall i: nat :: i < |p| ==> !OccursAt(p + d, d, i)
  }

  /** Splitting `p + d + t` cuts first right after a separable `p`. */
  lemma SplitAfter(p: string, d: string, t: string)
    requires |d| > 0 && Separable(p, d)
    ensures Split(p + d + t, d) == [p] + Split(t, d)
  {
    var s := p + d + t;
    assert s == (p + d) + t;
    assert OccursAt(s, d, |p|) by {
      assert s[|p|..|p| + |d|] == d;
    }
    forall j: nat | j < |p|
      ensures !OccursAt(s, d, j)
    {
      OccursAtPrefix(p + d, t, d, j);
    }
    var f := FindFrom(s, d, 0);
    assert f == Some(|p|);
    assert s[..|p|] == p;
    assert s[|p| + |d|..] == t;
  }

  /** Join then split is the identity on separable pieces. */
  lemma {:induction false} SplitJoin(parts: seq<string>, d: string)
    requires |d| > 0 && |parts| >= 1
    requires forall k :: 0 <= k < |parts| ==> Separable(parts[k], d)
    ensures Split(Join(parts, d), d) == parts
    decreases |parts|
  {
    var p := parts[0];
    if |parts| == 1 {
      match FindFrom(p, d, 0)
      case None =>
      case Some(j) =>
        OccursAtPrefix(p, d, d, j);
        assert false;
    } else {
      SplitJoin(parts[1..], d);
      SplitAfter(p, d, Join(parts[1..], d));
      assert [p] + parts[1..] == parts;
    }
  }

  /** For a one-character separator, separable means the character is absent. */
  lemma SeparableByChar(p: string, c: char)
    ensures Separable(p, [c]) <==> c !in p
  {
    if c in p {
      var i :| 0 <= i < |p| && p[i] == c;
      assert (p + [c])[i..i + 1] == [c];
      assert OccursAt(p + [c], [c], i);
    } else {
      forall i: nat | i < |p|
        ensures !OccursAt(p + [c], [c], i)
      {
        assert (p + [c])[i..i + 1] == [p[i]];
      }
    }
  }

  /** A piece free of `###` and not ending in `#` is separable by `###`. */
  lemma SeparableByHashes(p: string)
    requires !Contains(p, "###")
    requires p == [] || p[|p| - 1] != '#'
    ensures Separable(p, "###")
  {
    forall i: nat | i < |p|
      ensures !OccursAt(p + "###", "###", i)
    {
      if i + 3 <= |p| {
        OccursAtPrefix(p, "###", "###", i);
      } else {
        assert (p + "###")[i..i + 3][|p| - 1 - i] == p[|p| - 1];
      }
    }
  }

  /** Where a one-character separator is first found, and what that says. */
  lemma FindChar(a: string, c: char)
    ensures FindFrom(a, [c], 0).None? ==> c !in a
    ensures FindFrom(a, [c], 0).Some? ==>
      var j := FindFrom(a, [c], 0).value;
      j < |a| && a[j] == c && c !in a[..j]
  {
    match FindFrom(a, [c], 0)
    case None => FindCharNone(a, c);
    case Some(j) => FindCharSome(a, c, j);
  }

  lemma FindCharNone(a: string, c: char)
    requires forall j: nat :: !OccursAt(a, [c], j)
    ensures c !in a
  {
    if c in a {
      var i :| 0 <= i < |a| && a[i] == c;
      assert a[i..i + 1] == [c];
      assert OccursAt(a, [c], i);
    }
  }

  lemma FindCharSome(a: string, c: char, j: nat)
    requires OccursAt(a, [c], j)
    requires forall i: nat :: i < j ==> !OccursAt(a, [c], i)
    ensures j < |a| && a[j] == c && c !in a[..j]
  {
    assert a[j..j + 1] == [c];
    if c in a[..j] {
      var i :| 0 <= i < j && a[..j][i] == c;
      assert a[i..i + 1] == [c];
      assert OccursAt(a, [c], i);
    }
  }

  /** One step of `Split`: the piece before the leftmost separator, then the
      pieces of the rest. */
  lemma SplitStep(s: string, d: string)
    requires |d| > 0
    ensures FindFrom(s, d, 0).None? ==> Split(s, d) == [s]
    ensures FindFrom(s, d, 0).Some? ==>
      var j := FindFrom(s, d, 0).value;
      Split(s, d) == [s[..j]] + Split(s[j + |d|..], d)
  {
  }

  /** Splitting on a single character distributes over a cut at that
      character: the pieces of `a` come first, then the pieces of `b`. */
  lemma {:induction false} SplitAtChar(a: string, c: char, b: string)
    ensures Split(a + [c] + b, [c]) == Split(a, [c]) + Split(b, [c])
    decreases |a|
  {
    FindChar(a, c);
    var f := FindFrom(a, [c], 0);
    if f.None? {
      SplitStep(a, [c]);
      SeparableByChar(a, c);
      SplitAfter(a, [c], b);
    } else {
      var j := f.value;
      SplitAtChar(a[j + 1..], c, b);
      SplitAtCharStep(a, c, b, j);
    }
  }

  /** The inductive step of `SplitAtChar`, given the claim for the text after
      the first separator of `a`. */
  lemma SplitAtCharStep(a: string, c: char, b: string, j: nat)
    requires FindFrom(a, [c], 0) == Some(j)
    requires j < |a| && a[j] == c && c !in a[..j]
    requires Split(a[j + 1..] + [c] + b, [c]) == Split(a[j + 1..], [c]) + Split(b, [c])
    ensures Split(a + [c] + b, [c]) == Split(a, [c]) + Split(b, [c])
  {
    var a1, a2 := a[..j], a[j + 1..];
    var rest := a2 + [c] + b;
    var pa, pb := Split(a2, [c]), Split(b, [c]);
    assert Split(a, [c]) == [a1] + pa by {
      SplitStep(a, [c]);
    }
    assert Split(a1 + [c] + rest, [c]) == [a1] + (pa + pb) by {
      SeparableByChar(a1, c);
      SplitAfter(a1, [c], rest);
    }
    Regroup(a, c, b, j);
    SplitRewrite(a + [c] + b, a1 + [c] + rest, [c], Split(a, [c]), [a1], pa, pb);
  }

  /** Rewriting a split through equal texts and regrouping its pieces,
      proved apart from the definition of `Split` so that the regrouping
      does not unfold it. */
  lemma SplitRewrite(s: string, t: string, d: string, sa: seq<string>, x: seq<string>, pa: seq<string>, pb: seq<string>)
    requires |d| > 0 && s == t
    requires Split(t, d) == x + (pa + pb) && sa == x + pa
    ensures Split(s, d) == sa + pb
  {
  }

  /** `a` cut at its separator at `j`, regrouped around the next one. */
  lemma Regroup(a: string, c: char, b: string, j: nat)
    requires j < |a| && a[j] == c
    ensures a + [c] + b == a[..j] + [c] + (a[j + 1..] + [c] + b)
  {
    assert a == a[..j] + [c] + a[j + 1..];
  }
}
