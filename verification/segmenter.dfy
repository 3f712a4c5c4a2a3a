/**
  The insight segmenter of the PDF export: the model's reply is cut at every
  "###", whitespace-only fragments are discarded, and each remaining fragment
  becomes a section whose title is its stripped first line and whose body is
  its non-blank remaining lines, left unstripped.
*/
module Segmenter {
  import opened Text

  datatype Section = Section(title: string, body: seq<string>)

  const Delimiter: string := "###"
  const Newline: string := "\n"

  /** What every section produced by the segmenter looks like: a stripped,
      single-line title and non-blank, single-line body lines. */
  predicate WellFormed(sec: Section) {
    && Trim(sec.title) == sec.title
    && '\n' !in sec.title
    && forall k :: 0 <= k < |sec.body| ==> !IsBlank(sec.body[k]) && '\n' !in sec.body[k]
  }

  // ---------------------------------------------------------------------------
  // Dropping whitespace-only entries
  // ---------------------------------------------------------------------------

  /** The entries that are not whitespace-only, in order and unchanged: the
      `if x.strip()` filter, applied both to fragments and to body lines. */
  function NonBlank(xs: seq<string>): (r: seq<string>)
    ensures |r| <= |xs|
  {
    if xs == [] then []
    else (if !IsBlank(xs[0]) then [xs[0]] else []) + NonBlank(xs[1..])
  }

  /** Every kept entry is non-blank. */
  lemma {:induction false} NonBlankKept(xs: seq<string>)
    ensures forall k :: 0 <= k < |NonBlank(xs)| ==> !IsBlank(NonBlank(xs)[k])
    decreases |xs|
  {
    if xs != [] {
      NonBlankKept(xs[1..]);
    }
  }

  /** Every non-blank entry is kept: only whitespace-only entries are
      dropped. */
  lemma {:induction false} NonBlankKeepsAll(xs: seq<string>)
    requires forall k :: 0 <= k < |xs| ==> !IsBlank(xs[k])
    ensures NonBlank(xs) == xs
    decreases |xs|
  {
    if xs != [] {
      NonBlankKeepsAll(xs[1..]);
      assert [xs[0]] + xs[1..] == xs;
    }
  }

  /** Whitespace-only entries all go. */
  lemma {:induction false} NonBlankOfBlanks(xs: seq<string>)
    requires forall k :: 0 <= k < |xs| ==> IsBlank(xs[k])
    ensures NonBlank(xs) == []
    decreases |xs|
  {
    if xs != [] {
      NonBlankOfBlanks(xs[1..]);
    }
  }

  /** The filter distributes over concatenation. */
  lemma {:induction false} NonBlankAppend(x: seq<string>, y: seq<string>)
    ensures NonBlank(x + y) == NonBlank(x) + NonBlank(y)
    decreases |x|
  {
    if x == [] {
      assert x + y == y;
    } else {
      assert (x + y)[1..] == x[1..] + y;
      NonBlankAppend(x[1..], y);
    }
  }

  /** A character absent from every entry is absent from every kept entry. */
  lemma {:induction false} NonBlankLacks(xs: seq<string>, c: char)
    requires forall k :: 0 <= k < |xs| ==> c !in xs[k]
    ensures forall k :: 0 <= k < |NonBlank(xs)| ==> c !in NonBlank(xs)[k]
    decreases |xs|
  {
    if xs != [] {
      NonBlankLacks(xs[1..], c);
    }
  }

  // ---------------------------------------------------------------------------
  // One section
  // ---------------------------------------------------------------------------

  /** The text before the first line break, or all of it. */
  function FirstLine(fragment: string): (line: string)
    ensures '\n' !in line
    ensures |line| <= |fragment| && fragment[..|line|] == line
    ensures |line| == |fragment| || fragment[|line|] == '\n'
  {
    FindChar(fragment, '\n');
    SplitStep(fragment, Newline);
    Split(fragment, Newline)[0]
  }

  /** `title, *body = fragment.split("\n")`: the stripped first line is the
      title and the non-blank remaining lines form the body. */
  function SectionOf(fragment: string): (sec: Section)
    ensures sec.title == Trim(FirstLine(fragment))
  {
    var lines := Split(fragment, Newline);
    Section(Trim(lines[0]), NonBlank(lines[1..]))
  }

  /** A section cut from any fragment is well formed. */
  lemma SectionOfWellFormed(fragment: string)
    ensures WellFormed(SectionOf(fragment))
  {
    var lines := Split(fragment, Newline);
    SplitPieces(fragment, Newline);
    forall k | 0 <= k < |lines|
      ensures '\n' !in lines[k]
    {
      ContainsChar(lines[k], '\n');
    }
    var title := Trim(lines[0]);
    TrimIdempotent(lines[0]);
    if '\n' in title {
      TrimChars(lines[0], '\n');
    }
    NonBlankKept(lines[1..]);
    NonBlankLacks(lines[1..], '\n');
  }

  /** A fragment given by its lines: the title is the stripped first line
      and the body the non-blank remaining lines. */
  lemma SectionOfLines(head: string, body: seq<string>)
    requires '\n' !in head
    requires forall k :: 0 <= k < |body| ==> '\n' !in body[k]
    ensures SectionOf(Join([head] + body, Newline)) == Section(Trim(head), NonBlank(body))
  {
    var lines := [head] + body;
    forall k | 0 <= k < |lines|
      ensures Separable(lines[k], Newline)
    {
      SeparableByChar(lines[k], '\n');
    }
    SplitJoin(lines, Newline);
    assert lines[1..] == body;
  }

  // ---------------------------------------------------------------------------
  // The section loop
  // ---------------------------------------------------------------------------

  /** One section per fragment, in order. */
  function MapSections(fragments: seq<string>): (r: seq<Section>)
    ensures |r| == |fragments|
  {
    if fragments == [] then [] else [SectionOf(fragments[0])] + MapSections(fragments[1..])
  }

  lemma {:induction false} MapSectionsAppend(x: seq<string>, y: seq<string>)
    ensures MapSections(x + y) == MapSections(x) + MapSections(y)
    decreases |x|
  {
    if x == [] {
      assert x + y == y;
    } else {
      assert (x + y)[1..] == x[1..] + y;
      MapSectionsAppend(x[1..], y);
    }
  }

  lemma {:induction false} MapSectionsWellFormed(fragments: seq<string>)
    ensures forall k :: 0 <= k < |MapSections(fragments)| ==> WellFormed(MapSections(fragments)[k])
    decreases |fragments|
  {
    if fragments != [] {
      MapSectionsWellFormed(fragments[1..]);
      SectionOfWellFormed(fragments[0]);
    }
  }

  /** One section per fragment that is not whitespace-only, in order. */
  function SectionsOf(fragments: seq<string>): (r: seq<Section>)
    ensures |r| <= |fragments|
  {
    MapSections(NonBlank(fragments))
  }

  /** The section loop of the PDF export over the model's reply. */
  function Segment(text: string): (sections: seq<Section>)
    ensures |sections| <= |Split(text, Delimiter)|
  {
    SectionsOf(Split(text, Delimiter))
  }

  // ---------------------------------------------------------------------------
  // Properties
  // ---------------------------------------------------------------------------

  /** Every section of a segmentation is well formed: a stripped one-line
      title and non-blank one-line body lines. */
  lemma SegmentWellFormed(text: string)
    ensures forall k :: 0 <= k < |Segment(text)| ==> WellFormed(Segment(text)[k])
  {
    MapSectionsWellFormed(NonBlank(Split(text, Delimiter)));
  }

  /** Whitespace-only text yields no section at all. */
  lemma SegmentBlank(text: string)
    requires IsBlank(text)
    ensures Segment(text) == []
  {
    var parts := Split(text, Delimiter);
    SplitPieces(text, Delimiter);
    JoinBlank(parts, Delimiter);
    NonBlankOfBlanks(parts);
  }

  /** Text with no "###" and some non-blank content is a single section,
      titled with its stripped first line. */
  lemma SegmentWithoutDelimiter(text: string)
    requires !Contains(text, Delimiter) && !IsBlank(text)
    ensures |Segment(text)| == 1
    ensures Segment(text)[0] == SectionOf(text)
    ensures Segment(text)[0].title == Trim(FirstLine(text))
  {
    SplitStep(text, Delimiter);
    assert Split(text, Delimiter) == [text];
    NonBlankKeepsAll([text]);
  }

  /** Segmenting the concatenation of fragments concatenates the sections. */
  lemma SectionsOfAppend(x: seq<string>, y: seq<string>)
    ensures SectionsOf(x + y) == SectionsOf(x) + SectionsOf(y)
  {
    NonBlankAppend(x, y);
    MapSectionsAppend(NonBlank(x), NonBlank(y));
  }

  /** A non-blank preamble before the first "###" is a section of its own,
      titled with its stripped first line, ahead of the sections after it. */
  lemma SegmentPreamble(p: string, t: string)
    requires !Contains(p, Delimiter) && (p == [] || p[|p| - 1] != '#') && !IsBlank(p)
    ensures Segment(p + Delimiter + t) == [SectionOf(p)] + Segment(t)
  {
    SeparableByHashes(p);
    SplitAfter(p, Delimiter, t);
    SectionsOfAppend([p], Split(t, Delimiter));
    assert NonBlank([p]) == [p];
  }

  // ---------------------------------------------------------------------------
  // The reply layout and the round trip
  // ---------------------------------------------------------------------------

  /** The lines of a section after the "###" that introduces it: a space and
      the title on the heading line, then the body lines. */
  function Lines(sec: Section): (lines: seq<string>)
    ensures |lines| == 1 + |sec.body| && lines[0] == " " + sec.title && lines[1..] == sec.body
  {
    [" " + sec.title] + sec.body
  }

  /** The text of one section in the layout of the prompt's mandatory
      sections (`### Title` on its own line, the body below): every line is
      ended by a line break. */
  function Fragment(sec: Section): (f: string)
    ensures |f| >= 1 && f[|f| - 1] == '\n'
  {
    Join(Lines(sec), Newline) + Newline
  }

  function Fragments(sections: seq<Section>): (r: seq<string>)
    ensures |r| == |sections|
  {
    if sections == [] then [] else [Fragment(sections[0])] + Fragments(sections[1..])
  }

  /** A reply laid out as the prompt asks: every section introduced by "###",
      with nothing before the first. */
  function Render(sections: seq<Section>): string {
    Join([""] + Fragments(sections), Delimiter)
  }

  /** A section that survives the layout: well formed, not empty, and its
      text contains no "###" that would start another section. */
  predicate Renderable(sec: Section) {
    && WellFormed(sec)
    && (sec.title != [] || sec.body != [])
    && !Contains(Fragment(sec), Delimiter)
  }

  /** A non-empty well-formed section is laid out as non-blank text. */
  lemma FragmentNotBlank(sec: Section)
    requires WellFormed(sec) && (sec.title != [] || sec.body != [])
    ensures !IsBlank(Fragment(sec))
  {
    var lines := Lines(sec);
    var j := Join(lines, Newline);
    var f := Fragment(sec);
    assert f[..|j|] == j;
    JoinStartsWith(lines, Newline);
    if sec.title != [] {
      assert !IsSpace(sec.title[0]);
      assert f[1] == j[1] == j[..|lines[0]|][1] == sec.title[0];
    } else {
      var tail := Join(sec.body, Newline);
      var first := sec.body[0];
      assert j == " " + Newline + tail;
      JoinStartsWith(sec.body, Newline);
      var m :| 0 <= m < |first| && !IsSpace(first[m]);
      assert tail[..|first|] == first;
      assert f[2 + m] == j[2 + m] == tail[m] == tail[..|first|][m] == first[m];
    }
  }

  /** The laid-out text of a section is the join of its lines with an empty
      last line. */
  lemma FragmentLines(sec: Section)
    ensures Fragment(sec) == Join([" " + sec.title] + (sec.body + [""]), Newline)
  {
    JoinAppendEmpty(Lines(sec), Newline);
    assert Lines(sec) + [""] == [" " + sec.title] + (sec.body + [""]);
  }

  /** Blank lines after the body are dropped with the other blank lines. */
  lemma NonBlankTrailing(body: seq<string>)
    requires forall k :: 0 <= k < |body| ==> !IsBlank(body[k])
    ensures NonBlank(body + [""]) == body
  {
    NonBlankAppend(body, [""]);
    NonBlankKeepsAll(body);
    assert NonBlank([""]) == [];
  }

  /** A renderable section is recovered from its own text. */
  lemma SectionOfFragment(sec: Section)
    requires Renderable(sec)
    ensures !IsBlank(Fragment(sec))
    ensures SectionOf(Fragment(sec)) == sec
  {
    var body := sec.body + [""];
    forall k | 0 <= k < |body|
      ensures '\n' !in body[k]
    {
      if k < |sec.body| {
        assert body[k] == sec.body[k];
      }
    }
    FragmentLines(sec);
    SectionOfLines(" " + sec.title, body);
    TrimPadded(sec.title);
    NonBlankTrailing(sec.body);
    FragmentNotBlank(sec);
  }

  /** Fragments that each give back their own section give back the
      sections, in order. */
  lemma {:induction false} MapSectionsInverse(xs: seq<string>, sections: seq<Section>)
    requires |xs| == |sections|
    requires forall k :: 0 <= k < |xs| ==> SectionOf(xs[k]) == sections[k]
    ensures MapSections(xs) == sections
    decreases |xs|
  {
    if xs != [] {
      MapSectionsInverse(xs[1..], sections[1..]);
      assert [sections[0]] + sections[1..] == sections;
    }
  }

  /** The k-th fragment of a rendering is the k-th section's text. */
  lemma {:induction false} FragmentsAt(sections: seq<Section>, k: nat)
    requires k < |sections|
    ensures Fragments(sections)[k] == Fragment(sections[k])
    decreases k
  {
    if k > 0 {
      FragmentsAt(sections[1..], k - 1);
    }
  }

  /** An empty preamble before the first "###" yields no section. */
  lemma NonBlankPreamble(xs: seq<string>)
    ensures NonBlank([""] + xs) == NonBlank(xs)
  {
    assert ([""] + xs)[1..] == xs;
    assert IsBlank("");
  }

  /** Pieces that are all non-blank and each give their section back
      segment into those sections. */
  lemma SectionsOfPieces(xs: seq<string>, sections: seq<Section>)
    requires forall k :: 0 <= k < |xs| ==> !IsBlank(xs[k])
    requires MapSections(xs) == sections
    ensures SectionsOf([""] + xs) == sections
  {
    NonBlankPreamble(xs);
    NonBlankKeepsAll(xs);
  }

  /** The pieces of a rendering, the empty preamble included, segment back
      into the sections. */
  lemma SectionsOfRendered(sections: seq<Section>)
    requires forall k :: 0 <= k < |sections| ==> Renderable(sections[k])
    ensures SectionsOf([""] + Fragments(sections)) == sections
  {
    var fragments := Fragments(sections);
    forall k | 0 <= k < |fragments|
      ensures !IsBlank(fragments[k]) && SectionOf(fragments[k]) == sections[k]
    {
      FragmentsAt(sections, k);
      SectionOfFragment(sections[k]);
    }
    MapSectionsInverse(fragments, sections);
    SectionsOfPieces(fragments, sections);
  }

  /** Round trip: sections laid out as the prompt asks, each under a
      `### Title` heading line with its body lines below, are segmented back
      into exactly the same sections, in the same order. */
  lemma SegmentRender(sections: seq<Section>)
    requires forall k :: 0 <= k < |sections| ==> Renderable(sections[k])
    ensures Segment(Render(sections)) == sections
  {
    var parts := [""] + Fragments(sections);
    forall k | 0 <= k < |parts|
      ensures Separable(parts[k], Delimiter)
    {
      if k == 0 {
        SeparableByHashes("");
      } else {
        FragmentsAt(sections, k - 1);
        SeparableByHashes(Fragment(sections[k - 1]));
      }
    }
    SplitJoin(parts, Delimiter);
    SectionsOfRendered(sections);
  }

  /** A one-line text that is stripped, non-empty and free of '#'. */
  predicate Plain(t: string) {
    t != [] && Trim(t) == t && '#' !in t && '\n' !in t
  }

  /** The reply `### a`, `l1`, a blank line, `### b`, `l2` is two sections,
      the blank line dropped. */
  lemma SegmentTwoSections(a: string, l1: string, b: string, l2: string)
    requires Plain(a) && Plain(l1) && Plain(b) && Plain(l2)
    ensures Segment("### " + a + "\n" + l1 + "\n\n### " + b + "\n" + l2)
         == [Section(a, [l1]), Section(b, [l2])]
  {
    var f1 := " " + a + "\n" + l1 + "\n\n";
    var f2 := " " + b + "\n" + l2;
    PlainFirst(a, l1, f1);
    PlainSecond(b, l2, f2);
    TwoSectionsJoin(a, l1, b, l2, f1, f2);
    SegmentPieces(Join(["", f1, f2], Delimiter), f1, f2, Section(a, [l1]), Section(b, [l2]));
  }

  /** Two separable, non-blank pieces after an empty preamble segment into
      their two sections. */
  lemma SegmentPieces(text: string, f1: string, f2: string, s1: Section, s2: Section)
    requires text == Join(["", f1, f2], Delimiter)
    requires Separable(f1, Delimiter) && Separable(f2, Delimiter)
    requires !IsBlank(f1) && !IsBlank(f2)
    requires SectionOf(f1) == s1 && SectionOf(f2) == s2
    ensures Segment(text) == [s1, s2]
  {
    assert Split(text, Delimiter) == ["", f1, f2] by {
      SeparableByHashes("");
      SplitJoin(["", f1, f2], Delimiter);
    }
    TwoPieces(f1, f2, s1, s2);
  }

  /** The sections of an empty preamble and two non-blank pieces. */
  lemma TwoPieces(f1: string, f2: string, s1: Section, s2: Section)
    requires !IsBlank(f1) && !IsBlank(f2)
    requires SectionOf(f1) == s1 && SectionOf(f2) == s2
    ensures SectionsOf(["", f1, f2]) == [s1, s2]
  {
    MapSectionsInverse([f1, f2], [s1, s2]);
    SectionsOfPieces([f1, f2], [s1, s2]);
    assert [""] + [f1, f2] == ["", f1, f2];
  }

  /** The first section of the example: a heading, one line, a blank line. */
  lemma PlainFirst(a: string, l1: string, f1: string)
    requires Plain(a) && Plain(l1) && f1 == " " + a + "\n" + l1 + "\n\n"
    ensures SectionOf(f1) == Section(a, [l1]) && !IsBlank(f1) && Separable(f1, Delimiter)
  {
    assert SectionOf(f1) == Section(a, NonBlank([l1, "", ""])) && !IsBlank(f1) by {
      FourLines(" " + a, l1, f1);
      PlainSection(a, [l1, "", ""], f1);
    }
    LineAndBlanks(l1);
    assert '#' !in f1;
    PlainPieceSeparable(f1);
  }

  /** A non-blank line followed by two empty lines keeps only that line. */
  lemma LineAndBlanks(l: string)
    requires !IsBlank(l)
    ensures NonBlank([l, "", ""]) == [l]
  {
    NonBlankAppend([l], ["", ""]);
    NonBlankOfBlanks(["", ""]);
    NonBlankKeepsAll([l]);
    assert [l] + ["", ""] == [l, "", ""];
  }

  /** The second section of the example: a heading and one line. */
  lemma PlainSecond(b: string, l2: string, f2: string)
    requires Plain(b) && Plain(l2) && f2 == " " + b + "\n" + l2
    ensures SectionOf(f2) == Section(b, [l2]) && !IsBlank(f2) && Separable(f2, Delimiter)
  {
    JoinCons(" " + b, [l2], Newline);
    PlainSection(b, [l2], f2);
    NonBlankKeepsAll([l2]);
    PlainPieceSeparable(f2);
  }

  lemma TwoSectionsJoin(a: string, l1: string, b: string, l2: string, f1: string, f2: string)
    requires f1 == " " + a + "\n" + l1 + "\n\n" && f2 == " " + b + "\n" + l2
    ensures "### " + a + "\n" + l1 + "\n\n### " + b + "\n" + l2 == Join(["", f1, f2], Delimiter)
  {
    JoinCons(f1, [f2], Delimiter);
    JoinCons("", [f1, f2], Delimiter);
    assert [f1] + [f2] == [f1, f2];
    assert [""] + [f1, f2] == ["", f1, f2];
  }

  /** A heading line, one body line and a blank line, each ended by a line
      break. */
  lemma FourLines(h: string, l: string, f: string)
    requires f == h + "\n" + l + "\n\n"
    ensures f == Join([h] + [l, "", ""], Newline)
  {
    JoinCons("", [""], Newline);
    JoinCons(l, ["", ""], Newline);
    JoinCons(h, [l, "", ""], Newline);
    assert [""] + [""] == ["", ""];
    assert [l] + ["", ""] == [l, "", ""];
  }

  /** A '#'-free piece ending in a character other than '#' is separable. */
  lemma PlainPieceSeparable(p: string)
    requires '#' !in p && p != []
    ensures Separable(p, Delimiter)
  {
    assert p[|p| - 1] in p;
    MissingCharNotContained(p, Delimiter, '#');
    SeparableByHashes(p);
  }

  /** A fragment with a plain title after one space and one-line body lines
      has that title and its non-blank body lines, and is not blank. */
  lemma PlainSection(title: string, lines: seq<string>, f: string)
    requires Plain(title)
    requires forall k :: 0 <= k < |lines| ==> '\n' !in lines[k]
    requires f == Join([" " + title] + lines, Newline)
    ensures SectionOf(f) == Section(title, NonBlank(lines))
    ensures !IsBlank(f)
  {
    SectionOfLines(" " + title, lines);
    TrimPadded(title);
    PlainHeadNotBlank(title, lines, f);
  }

  /** The heading line's first letter keeps such a fragment non-blank. */
  lemma PlainHeadNotBlank(title: string, lines: seq<string>, f: string)
    requires title != [] && !IsSpace(title[0])
    requires f == Join([" " + title] + lines, Newline)
    ensures !IsBlank(f)
  {
    JoinStartsWith([" " + title] + lines, Newline);
    assert f[1] == f[..|" " + title|][1] == title[0];
  }
}
