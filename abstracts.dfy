/** Abstract extraction: `clean_abstract_text`, `is_low_quality_abstract`,
    `extract_first_text_block` and `guess_abstract_for_row`
    (CODE/bib.py:516-605). `collapse_whitespace` is `Text.Collapse`. */
module Abstracts {
  import opened Wrappers
  import opened Text
  import opened Titles
  import Candidates

  // ---------------------------------------------------------------------------
  // clean_abstract_text (CODE/bib.py:520-531)
  // ---------------------------------------------------------------------------

  /** The characters `clean_abstract_text` strips from both ends. */
  const AbstractTrim: set<char> := {' ', ':', ';', '-'}

  /** `\b(?:copyright|all rights reserved)\b` matches at `i` of the
      lower-cased text `l`. */
  predicate CopyrightAt(l: string, i: int) {
    WordAt(l, "copyright", i) || WordAt(l, "all rights reserved", i)
  }

  /** Index just after the first `.` at or after `k`, or the end: where
      `[^.]*\.?` stops. */
  function DotEnd(s: string, k: nat): (e: nat)
    requires k <= |s|
    decreases |s| - k
    ensures k <= e <= |s|
    ensures forall m | k <= m < e - 1 :: s[m] != '.'
    ensures e < |s| ==> e > k && s[e - 1] == '.'
  {
    if k == |s| then k
    else if s[k] == '.' then k + 1
    else DotEnd(s, k + 1)
  }

  /** `re.sub(r"\b(?:copyright|all rights reserved)\b[^.]*\.?", "", s[i:])`
      ignoring case: each match, from the keyword through the next `.`, is
      removed, scanning left to right. The word boundaries are those of the
      whole string `s`. */
  function RemoveCopyright(s: string, i: nat): (r: string)
    requires i <= |s|
    decreases |s| - i
    ensures |r| <= |s| - i
  {
    if i == |s| then []
    else if CopyrightAt(Lower(s), i) then
      var n := if WordAt(Lower(s), "copyright", i) then 9 else 19;
      RemoveCopyright(s, DotEnd(s, i + n))
    else [s[i]] + RemoveCopyright(s, i + 1)
  }

  /** Text without either phrase passes through unchanged. */
  lemma {:induction false} RemoveCopyrightNone(s: string, i: nat)
    requires i <= |s|
    requires forall k | i <= k <= |s| :: !CopyrightAt(Lower(s), k)
    ensures RemoveCopyright(s, i) == s[i..]
    decreases |s| - i
  {
    if i < |s| {
      RemoveCopyrightNone(s, i + 1);
      assert s[i..] == [s[i]] + s[i + 1..];
    }
  }

  /** `clean_abstract_text(text)`. */
  function CleanAbstractText(text: string): (r: string)
    ensures Squashed(r)
    ensures r != [] ==> r[0] !in AbstractTrim && r[|r| - 1] !in AbstractTrim
    ensures Collapse(Unescape(text)) == [] ==> r == []
  {
    var candidate := Collapse(Unescape(text));
    if candidate == [] then [] else SquashTrim(RemoveCopyright(candidate, 0))
  }

  /** The last two steps of `clean_abstract_text`: whitespace runs become one
      space, then `AbstractTrim` is stripped from both ends. */
  function SquashTrim(s: string): (r: string)
    ensures Squashed(r)
    ensures r != [] ==> r[0] !in AbstractTrim && r[|r| - 1] !in AbstractTrim
  {
    var t := SquashSpaces(s);
    var r := StripChars(t, AbstractTrim);
    SquashedSlice(t, StripStart(t, AbstractTrim), StripStart(t, AbstractTrim) + |r|);
    r
  }

  /** An abstract that is already clean (collapsed, no `&`, neither phrase,
      nothing to trim at the ends) is its own cleaning. */
  lemma CleanAbstractOfClean(s: string)
    requires IsCollapsed(s) && '&' !in s
    requires forall k | 0 <= k <= |s| :: !CopyrightAt(Lower(s), k)
    requires s != [] ==> s[0] !in AbstractTrim && s[|s| - 1] !in AbstractTrim
    ensures CleanAbstractText(s) == s
  {
    CollapseOfCollapsed(s);
    if s != [] {
      RemoveCopyrightNone(s, 0);
      assert s[0..] == s;
      SquashOfSquashed(s);
    }
  }

  // ---------------------------------------------------------------------------
  // is_low_quality_abstract (CODE/bib.py:534-543)
  // ---------------------------------------------------------------------------

  /** ABSTRACT_NOISE_RE. */
  function AbstractNoiseWords(): seq<string> { ["copyright", "all rights reserved", "creative commons",
    "received", "accepted", "issn", "doi:"] }

  /** The prefixes that mark a journal header rather than an abstract. */
  function HeaderStarts(): seq<string> { ["volume ", "issn ", "doi:", "journal "] }

  predicate HasAbstractNoise(s: string) { HasAnyWord(Lower(s), AbstractNoiseWords()) }

  /** No noise word and no header prefix: the test both `is_low_quality_abstract`
      and the labelled scan apply. */
  predicate LooksLikeAbstract(c: string) {
    !HasAbstractNoise(c) && !StartsWithAny(Lower(c), HeaderStarts())
  }

  /** `is_low_quality_abstract(text)`. */
  predicate IsLowQualityAbstract(text: string) {
    var c := CleanAbstractText(text);
    |c| < 80 || !LooksLikeAbstract(c)
  }

  // ---------------------------------------------------------------------------
  // extract_first_text_block (CODE/bib.py:546-586)
  // ---------------------------------------------------------------------------

  /** One line as the abstract scanner sees it:
      `collapse_whitespace(html.unescape(line.strip()))`. */
  function AbstractLine(raw: string): (line: string)
    ensures IsCollapsed(line)
  {
    Collapse(Unescape(Strip(raw)))
  }

  /** The scanner's lines of newline-normalised text. */
  function AbstractLines(normalized: string): (lines: seq<string>)
    ensures forall k | 0 <= k < |lines| :: IsCollapsed(lines[k])
  {
    var raw := SplitOn(normalized, '\n');
    seq(|raw|, k requires 0 <= k < |raw| => AbstractLine(raw[k]))
  }

  /** `re.match(r"^abstract\b", line)` ignoring case. */
  predicate IsAbstractLabel(line: string) { StartsWithWord(Lower(line), "abstract") }

  predicate IsLabelPunct(c: char) { c == ':' || IsSpace(c) || c == '-' }

  /** First index at or after `k` that is not `[:\s-]`. */
  function LabelPunctEnd(s: string, k: nat): (j: nat)
    requires k <= |s|
    decreases |s| - k
    ensures k <= j <= |s|
    ensures forall m | k <= m < j :: IsLabelPunct(s[m])
    ensures j < |s| ==> !IsLabelPunct(s[j])
  {
    if k < |s| && IsLabelPunct(s[k]) then LabelPunctEnd(s, k + 1) else k
  }

  /** `re.sub(r"^abstract\b[:\s-]*", "", line)` ignoring case, on a line
      that starts with the label. */
  function InlineRest(line: string): (r: string)
    requires IsAbstractLabel(line)
    ensures r == [] || !IsLabelPunct(r[0])
  {
    line[LabelPunctEnd(line, 8)..]
  }

  /** ABSTRACT_SECTION_RE, with its optional letters spelled out. */
  function AbstractSectionWords(): seq<string> { ["keywords", "keyword", "index terms", "index term",
    "key points", "key point", "introduction", "references", "reference"] }

  /** The `1[.)]\s` and `i[.)]\s` branches of ABSTRACT_SECTION_RE, each
      followed by `\b`. */
  predicate NumberedHeading(l: string) {
    |l| >= 3 && (l[0] == '1' || l[0] == 'i') && (l[1] == '.' || l[1] == ')') && IsSpace(l[2]) && Boundary(l, 3)
  }

  /** `ABSTRACT_SECTION_RE.match(line)`. */
  predicate IsAbstractSection(line: string) {
    var l := Lower(line);
    StartsWithAnyWord(l, AbstractSectionWords()) || NumberedHeading(l)
  }

  /** `s.isupper() and len(s.split()) <= 8`: a short heading in capitals. */
  predicate IsShoutedHeading(s: string) { IsUpperStr(s) && WordCount(s) <= 8 }

  /** The scan after a label line, from line `j` with `acc` collected so far
      (the inner loop of `extract_first_text_block`): blank lines before any
      content and noise lines are skipped; a blank line after content, a
      section line, a short capitals line after content, or a join longer
      than 4000 characters ends the block. */
  function ScanLabelled(lines: seq<string>, j: nat, acc: seq<string>): (r: seq<string>)
    decreases |lines| - j
    ensures |acc| <= |r| && r[..|acc|] == acc
    ensures forall k | |acc| <= k < |r| ::
      r[k] != [] && !IsAbstractSection(r[k]) && !HasAbstractNoise(r[k]) && (k > 0 ==> !IsShoutedHeading(r[k]))
  {
    if j >= |lines| then acc
    else
      var s := Strip(lines[j]);
      if s == [] then (if acc != [] then acc else ScanLabelled(lines, j + 1, acc))
      else if IsAbstractSection(s) then acc
      else if HasAbstractNoise(s) then ScanLabelled(lines, j + 1, acc)
      else if acc != [] && IsShoutedHeading(s) then acc
      else
        var acc2 := acc + [s];
        assert acc2[|acc|] == s && acc2[..|acc|] == acc;
        if |Join(acc2, " ")| > 4000 then acc2
        else
          var r := ScanLabelled(lines, j + 1, acc2);
          assert r[..|acc2|][..|acc|] == r[..|acc|];
          r
  }

  /** A line the scan keeps when it does not stop there: non-blank and
      not noise. */
  predicate KeptLine(line: string) {
    Strip(line) != [] && !HasAbstractNoise(Strip(line))
  }

  /** The stripped lines of `ls` that the scan keeps, in order. */
  function Kept(ls: seq<string>): (r: seq<string>)
    ensures |r| <= |ls|
  {
    if ls == [] then [] else (if KeptLine(ls[0]) then [Strip(ls[0])] else []) + Kept(ls[1..])
  }

  /** The scan stops at `line` when `sofar` has been collected: a blank
      line after content, a section line, or a short capitals line after
      content. */
  predicate ScanStops(line: string, sofar: seq<string>) {
    var s := Strip(line);
    (s == [] && sofar != []) || (s != [] && IsAbstractSection(s))
    || (s != [] && !HasAbstractNoise(s) && sofar != [] && IsShoutedHeading(s))
  }

  /** The scan from `j` with `acc` ends before line `e` and returns `r`:
      `r` is `acc` followed by the kept lines of `lines[j..e]`; the scan did
      not stop earlier and stayed within 4000 characters after each line
      it added; and at `e` the lines ran out, a stop line came, or the line
      just added took the text over 4000 characters. */
  ghost predicate ScanWindow(lines: seq<string>, j: nat, acc: seq<string>, e: nat, r: seq<string>) {
    && j <= e <= |lines|
    && r == acc + Kept(lines[j..e])
    && NoEarlierStop(lines, j, acc, e)
    && WithinCap(lines, j, acc, e)
    && (e == |lines| || ScanStops(lines[e], r) || (j < e && KeptLine(lines[e - 1]) && |Join(r, " ")| > 4000))
  }

  /** The scan from `j` with `acc` meets no stop line before `e`. */
  ghost predicate NoEarlierStop(lines: seq<string>, j: nat, acc: seq<string>, e: nat)
    requires j <= e <= |lines|
  {
    forall m | j <= m < e :: !ScanStops(lines[m], acc + Kept(lines[j..m]))
  }

  /** The scan from `j` with `acc` stays within 4000 characters after each
      line it adds before `e`. */
  ghost predicate WithinCap(lines: seq<string>, j: nat, acc: seq<string>, e: nat)
    requires j <= e <= |lines|
  {
    forall m | j < m < e :: KeptLine(lines[m - 1]) ==> |Join(acc + Kept(lines[j..m]), " ")| <= 4000
  }

  /** `Kept` of a window, one line at a time from the front. */
  lemma KeptFront(lines: seq<string>, j: nat, m: nat)
    requires j < m <= |lines|
    ensures Kept(lines[j..m]) == (if KeptLine(lines[j]) then [Strip(lines[j])] else []) + Kept(lines[j + 1..m])
  {
    assert lines[j..m][1..] == lines[j + 1..m];
  }

  /** What the scan after a label collects: the kept lines of a window of
      lines that runs up to the first stop. */
  lemma {:induction false} ScanLabelledWindow(lines: seq<string>, j: nat, acc: seq<string>)
    requires j <= |lines|
    ensures exists e :: ScanWindow(lines, j, acc, e, ScanLabelled(lines, j, acc))
    decreases |lines| - j
  {
    var r := ScanLabelled(lines, j, acc);
    if j >= |lines| || ScanStops(lines[j], acc) {
      StopWindow(lines, j, acc);
    } else {
      var s := Strip(lines[j]);
      if s == [] || HasAbstractNoise(s) {
        assert !KeptLine(lines[j]) && !ScanStops(lines[j], acc);
        ScanLabelledWindow(lines, j + 1, acc);
        var e :| ScanWindow(lines, j + 1, acc, e, r);
        SkipWindow(lines, j, acc, e, r);
      } else {
        var acc2 := acc + [s];
        assert KeptLine(lines[j]) && !ScanStops(lines[j], acc);
        KeptFront(lines, j, j + 1);
        if |Join(acc2, " ")| > 4000 {
          CapWindow(lines, j, acc);
        } else {
          ScanLabelledWindow(lines, j + 1, acc2);
          var e :| ScanWindow(lines, j + 1, acc2, e, r);
          KeepWindow(lines, j, acc, e, r);
        }
      }
    }
  }

  /** At the end of the lines, or at a stop line, the window is empty. */
  lemma StopWindow(lines: seq<string>, j: nat, acc: seq<string>)
    requires j <= |lines| && (j == |lines| || ScanStops(lines[j], acc))
    ensures ScanLabelled(lines, j, acc) == acc
    ensures ScanWindow(lines, j, acc, j, acc)
  {
    assert lines[j..j] == [];
  }

  /** A kept line that takes the text over 4000 characters ends the window
      after it. */
  lemma CapWindow(lines: seq<string>, j: nat, acc: seq<string>)
    requires j < |lines| && KeptLine(lines[j]) && !ScanStops(lines[j], acc)
    requires |Join(acc + [Strip(lines[j])], " ")| > 4000
    ensures ScanLabelled(lines, j, acc) == acc + [Strip(lines[j])]
    ensures ScanWindow(lines, j, acc, j + 1, acc + [Strip(lines[j])])
  {
    var r := acc + [Strip(lines[j])];
    assert Kept(lines[j..j + 1]) == [Strip(lines[j])] by {
      KeptFront(lines, j, j + 1);
      assert lines[j + 1..j + 1] == [];
    }
    assert NoEarlierStop(lines, j, acc, j + 1) by {
      assert lines[j..j] == [];
    }
    assert WithinCap(lines, j, acc, j + 1);
  }

  /** A line neither kept nor stopping at widens the window by one. */
  lemma SkipWindow(lines: seq<string>, j: nat, acc: seq<string>, e: nat, r: seq<string>)
    requires j < |lines| && !KeptLine(lines[j]) && !ScanStops(lines[j], acc)
    requires ScanWindow(lines, j + 1, acc, e, r)
    ensures ScanWindow(lines, j, acc, e, r)
  {
    SkippedShift(lines, j, e);
    SkipNoEarlierStop(lines, j, acc, e);
    SkipWithinCap(lines, j, acc, e);
  }

  /** A line that is not kept adds nothing to what the scan collects. */
  lemma SkippedShift(lines: seq<string>, j: nat, e: nat)
    requires j < e <= |lines| && !KeptLine(lines[j])
    ensures forall m | j < m <= e :: Kept(lines[j..m]) == Kept(lines[j + 1..m])
  {
    forall m | j < m <= e ensures Kept(lines[j..m]) == Kept(lines[j + 1..m]) {
      KeptFront(lines, j, m);
    }
  }

  lemma SkipNoEarlierStop(lines: seq<string>, j: nat, acc: seq<string>, e: nat)
    requires j < e <= |lines| && !ScanStops(lines[j], acc)
    requires NoEarlierStop(lines, j + 1, acc, e)
    requires forall m | j < m <= e :: Kept(lines[j..m]) == Kept(lines[j + 1..m])
    ensures NoEarlierStop(lines, j, acc, e)
  {
    assert lines[j..j] == [];
  }

  lemma SkipWithinCap(lines: seq<string>, j: nat, acc: seq<string>, e: nat)
    requires j < e <= |lines| && !KeptLine(lines[j])
    requires WithinCap(lines, j + 1, acc, e)
    requires forall m | j < m <= e :: Kept(lines[j..m]) == Kept(lines[j + 1..m])
    ensures WithinCap(lines, j, acc, e)
  {
  }

  /** A kept line that does not stop the scan and keeps it within 4000
      characters widens the window by one. */
  lemma KeepWindow(lines: seq<string>, j: nat, acc: seq<string>, e: nat, r: seq<string>)
    requires j < |lines| && KeptLine(lines[j]) && !ScanStops(lines[j], acc)
    requires |Join(acc + [Strip(lines[j])], " ")| <= 4000
    requires ScanWindow(lines, j + 1, acc + [Strip(lines[j])], e, r)
    ensures ScanWindow(lines, j, acc, e, r)
  {
    var acc2 := acc + [Strip(lines[j])];
    KeptShift(lines, j, acc, e);
    KeepNoEarlierStop(lines, j, acc, e);
    KeepWithinCap(lines, j, acc, e);
  }

  /** After a kept line, what the scan has collected from `j` is what it
      collects from `j + 1` with that line added. */
  lemma KeptShift(lines: seq<string>, j: nat, acc: seq<string>, e: nat)
    requires j < e <= |lines| && KeptLine(lines[j])
    ensures forall m | j < m <= e :: acc + Kept(lines[j..m]) == (acc + [Strip(lines[j])]) + Kept(lines[j + 1..m])
  {
    forall m | j < m <= e ensures acc + Kept(lines[j..m]) == (acc + [Strip(lines[j])]) + Kept(lines[j + 1..m]) {
      KeptFront(lines, j, m);
    }
  }

  lemma KeepNoEarlierStop(lines: seq<string>, j: nat, acc: seq<string>, e: nat)
    requires j < e <= |lines| && KeptLine(lines[j]) && !ScanStops(lines[j], acc)
    requires NoEarlierStop(lines, j + 1, acc + [Strip(lines[j])], e)
    requires forall m | j < m <= e :: acc + Kept(lines[j..m]) == (acc + [Strip(lines[j])]) + Kept(lines[j + 1..m])
    ensures NoEarlierStop(lines, j, acc, e)
  {
    assert lines[j..j] == [];
  }

  lemma KeepWithinCap(lines: seq<string>, j: nat, acc: seq<string>, e: nat)
    requires j < e <= |lines| && KeptLine(lines[j])
    requires |Join(acc + [Strip(lines[j])], " ")| <= 4000
    requires WithinCap(lines, j + 1, acc + [Strip(lines[j])], e)
    requires forall m | j < m <= e :: acc + Kept(lines[j..m]) == (acc + [Strip(lines[j])]) + Kept(lines[j + 1..m])
    ensures WithinCap(lines, j, acc, e)
  {
    var acc2 := acc + [Strip(lines[j])];
    forall m | j < m < e && KeptLine(lines[m - 1]) ensures |Join(acc + Kept(lines[j..m]), " ")| <= 4000 {
      if m == j + 1 {
        assert Kept(lines[j + 1..m]) == [];
        assert acc + Kept(lines[j..m]) == acc2;
      }
    }
  }

  /** The outer loop over label lines: the first label whose block cleans to
      an acceptable abstract. A labelled result has no minimum length. */
  function LabelledFrom(lines: seq<string>, idx: nat): (r: Option<string>)
    decreases |lines| - idx
    ensures r.Some? ==> r.value != [] && LooksLikeAbstract(r.value)
  {
    if idx >= |lines| then None
    else if LabelQualifies(lines, idx) then Some(LabelledCandidate(lines, idx))
    else LabelledFrom(lines, idx + 1)
  }

  /** The label line at `m` yields an acceptable abstract. */
  predicate LabelQualifies(lines: seq<string>, m: nat) {
    m < |lines| && IsAbstractLabel(lines[m])
    && var c := LabelledCandidate(lines, m);
    c != [] && LooksLikeAbstract(c)
  }

  /** The first index from `k` below `n` where `q` holds. */
  function FirstWhere(n: nat, k: nat, q: nat -> bool): (r: Option<nat>)
    decreases n - k
    ensures r.Some? ==> k <= r.value < n && q(r.value) && forall m | k <= m < r.value :: !q(m)
    ensures r.None? <==> forall m | k <= m < n :: !q(m)
  {
    if k >= n then None else if q(k) then Some(k) else FirstWhere(n, k + 1, q)
  }

  /** The labelled scan returns the candidate of the first label line from
      `idx` on that qualifies, and nothing when none does. */
  lemma {:induction false} LabelledFromFirst(lines: seq<string>, idx: nat)
    ensures match FirstWhere(|lines|, idx, (m: nat) => LabelQualifies(lines, m))
      case Some(m) => LabelQualifies(lines, m) && LabelledFrom(lines, idx) == Some(LabelledCandidate(lines, m))
      case None => LabelledFrom(lines, idx).None?
    decreases |lines| - idx
  {
    if idx < |lines| {
      LabelledFromFirst(lines, idx + 1);
    }
  }

  /** The candidate built from the label line at `idx`. */
  function LabelledCandidate(lines: seq<string>, idx: nat): string
    requires idx < |lines| && IsAbstractLabel(lines[idx])
  {
    var inline := InlineRest(lines[idx]);
    var init := if Strip(inline) != [] then [inline] else [];
    CleanAbstractText(Join(ScanLabelled(lines, idx + 1, init), " "))
  }

  /** The first block from `k` on whose text, joined with spaces and passed
      through `clean`, is accepted by `good`. */
  function FirstAccepted(blocks: seq<seq<string>>, k: nat, clean: string -> string, good: string -> bool): (r: Option<string>)
    decreases |blocks| - k
    ensures r.Some? ==> good(r.value)
    ensures r.Some? ==> exists m | k <= m < |blocks| ::
      r.value == clean(Join(blocks[m], " ")) && forall m' | k <= m' < m :: !good(clean(Join(blocks[m'], " ")))
    ensures r.None? ==> forall m | k <= m < |blocks| :: !good(clean(Join(blocks[m], " ")))
  {
    if k >= |blocks| then None
    else
      var c := clean(Join(blocks[k], " "));
      if good(c) then Some(c) else FirstAccepted(blocks, k + 1, clean, good)
  }

  /** The test a fallback block has to pass. */
  predicate GoodBlock(c: string) { !IsLowQualityAbstract(c) && |c| >= 80 }

  /** The block fallback from block `k` on: the first block whose cleaned
      text is not low quality and has at least 80 characters. */
  function FirstGoodBlock(blocks: seq<seq<string>>, k: nat): (r: Option<string>)
    ensures r.Some? ==> |r.value| >= 80 && !IsLowQualityAbstract(r.value)
    ensures r.Some? ==> exists m | k <= m < |blocks| ::
      r.value == CleanAbstractText(Join(blocks[m], " "))
      && forall m' | k <= m' < m :: !GoodBlock(CleanAbstractText(Join(blocks[m'], " ")))
    ensures r.None? ==> forall m | k <= m < |blocks| :: !GoodBlock(CleanAbstractText(Join(blocks[m], " ")))
  {
    FirstAccepted(blocks, k, CleanAbstractText, GoodBlock)
  }

  /** `extract_first_text_block(text)`, as a specification. */
  function FirstTextBlock(text: string): string
  {
    var normalized := NormalizeNewlines(text);
    if Strip(normalized) == [] then []
    else
      match LabelledFrom(AbstractLines(normalized), 0)
      case Some(c) => c
      case None =>
        match FirstGoodBlock(Candidates.TextBlocks(normalized, 40), 0)
        case Some(c) => c
        case None => []
  }

  /** What `extract_first_text_block` returns: nothing for blank text; else
      a labelled abstract, which only has to be non-empty and free of noise
      and header prefixes; else a block that is not low quality and has at
      least 80 characters; else nothing. A labelled abstract always wins
      over the blocks. */
  lemma FirstTextBlockFacts(text: string)
    ensures var r := FirstTextBlock(text);
      var normalized := NormalizeNewlines(text);
      && (Strip(normalized) == [] ==> r == [])
      && (r != [] ==> LooksLikeAbstract(r) || (|r| >= 80 && !IsLowQualityAbstract(r)))
      && (Strip(normalized) != [] && LabelledFrom(AbstractLines(normalized), 0).Some? ==>
            r == LabelledFrom(AbstractLines(normalized), 0).value)
      && (Strip(normalized) != [] && LabelledFrom(AbstractLines(normalized), 0).None?
          && FirstGoodBlock(Candidates.TextBlocks(normalized, 40), 0).Some? ==>
            r == FirstGoodBlock(Candidates.TextBlocks(normalized, 40), 0).value)
      && (r == [] <==> Strip(normalized) == [] || (LabelledFrom(AbstractLines(normalized), 0).None?
                       && FirstGoodBlock(Candidates.TextBlocks(normalized, 40), 0).None?))
  {
  }

  /** Once content exists, the next blank line ends the block. */
  lemma ScanStopsAtBlank(lines: seq<string>, j: nat, acc: seq<string>)
    requires acc != [] && j < |lines| && Strip(lines[j]) == []
    ensures ScanLabelled(lines, j, acc) == acc
  {
  }

  /** A label line alone, one content line, then a blank line: the
      candidate is the cleaned content line, however long it is. */
  lemma LabelThenLine(lines: seq<string>, idx: nat)
    requires idx + 2 < |lines|
    requires IsAbstractLabel(lines[idx]) && Strip(InlineRest(lines[idx])) == []
    requires lines[idx + 2] == []
    requires var s := Strip(lines[idx + 1]);
      s != [] && !IsAbstractSection(s) && !HasAbstractNoise(s)
    ensures LabelledCandidate(lines, idx) == CleanAbstractText(Strip(lines[idx + 1]))
  {
    var s := Strip(lines[idx + 1]);
    assert Join([s], " ") == s;
    assert ScanLabelled(lines, idx + 1, []) == [s] by {
      assert Strip(lines[idx + 2]) == [];
      assert ScanLabelled(lines, idx + 2, [s]) == [s];
    }
  }

  /** Every character of a piece of `s.split(c)` is a character of `s`. */
  lemma {:induction false} SplitOnChars(s: string, c: char, p: string, x: char)
    requires p in SplitOn(s, c) && x in p
    ensures x in s
    decreases |s|
  {
    var k := IndexOf(s, c);
    if k < |s| {
      assert SplitOn(s, c) == [s[..k]] + SplitOn(s[k + 1..], c);
      if p != s[..k] {
        SplitOnChars(s[k + 1..], c, p, x);
      }
    }
  }

  /** Blank text has only blank lines. */
  lemma BlankTextLines(normalized: string)
    requires Strip(normalized) == []
    ensures forall k | 0 <= k < |AbstractLines(normalized)| :: AbstractLines(normalized)[k] == []
  {
    var raw := SplitOn(normalized, '\n');
    StripEmpty(normalized);
    forall k | 0 <= k < |raw| ensures AbstractLine(raw[k]) == [] {
      forall i | 0 <= i < |raw[k]| ensures IsSpace(raw[k][i]) {
        SplitOnChars(normalized, '\n', raw[k], raw[k][i]);
      }
      StripEmpty(raw[k]);
      StripEmpty([]);
    }
  }

  /** When the first label line stands alone, is followed by one content
      line and then a blank line, and that line cleans to an acceptable
      abstract, the labelled scan picks that cleaned line. */
  lemma FirstLabelThenLine(lines: seq<string>, idx: nat)
    requires idx + 2 < |lines|
    requires IsAbstractLabel(lines[idx]) && Strip(InlineRest(lines[idx])) == []
    requires lines[idx + 2] == []
    requires forall m | 0 <= m < idx :: !IsAbstractLabel(lines[m])
    requires var s := Strip(lines[idx + 1]);
      && s != [] && !IsAbstractSection(s) && !HasAbstractNoise(s)
      && CleanAbstractText(s) != [] && LooksLikeAbstract(CleanAbstractText(s))
    ensures LabelledFrom(lines, 0) == Some(CleanAbstractText(Strip(lines[idx + 1])))
  {
    LabelThenLine(lines, idx);
    FirstLabelWins(lines, idx);
  }

  /** A qualifying label line with no label line before it wins. */
  lemma FirstLabelWins(lines: seq<string>, idx: nat)
    requires LabelQualifies(lines, idx)
    requires forall m | 0 <= m < idx :: !IsAbstractLabel(lines[m])
    ensures LabelledFrom(lines, 0) == Some(LabelledCandidate(lines, idx))
  {
    var q := (m: nat) => LabelQualifies(lines, m);
    forall m | 0 <= m < idx ensures !q(m) {
      assert !IsAbstractLabel(lines[m]);
    }
    FirstWhereIs(|lines|, 0, q, idx);
    LabelledFromFirst(lines, 0);
  }

  /** An index where `q` holds, with none before it, is the first. */
  lemma FirstWhereIs(n: nat, k: nat, q: nat -> bool, i: nat)
    requires k <= i < n && q(i)
    requires forall m | k <= m < i :: !q(m)
    ensures FirstWhere(n, k, q) == Some(i)
  {
  }

  /** A text whose first label line stands alone, followed by one
      acceptable line and a blank line: the extracted abstract is that line,
      cleaned; no later label and no text block can replace it. */
  lemma LabelledAbstractWins(text: string, idx: nat)
    requires var lines := AbstractLines(NormalizeNewlines(text));
      && idx + 2 < |lines|
      && IsAbstractLabel(lines[idx]) && Strip(InlineRest(lines[idx])) == []
      && lines[idx + 2] == []
      && (forall m | 0 <= m < idx :: !IsAbstractLabel(lines[m]))
      && var s := Strip(lines[idx + 1]);
      && s != [] && !IsAbstractSection(s) && !HasAbstractNoise(s)
      && CleanAbstractText(s) != [] && LooksLikeAbstract(CleanAbstractText(s))
    ensures var lines := AbstractLines(NormalizeNewlines(text));
      FirstTextBlock(text) == CleanAbstractText(Strip(lines[idx + 1]))
  {
    var normalized := NormalizeNewlines(text);
    var lines := AbstractLines(normalized);
    FirstLabelThenLine(lines, idx);
    if Strip(normalized) == [] {
      BlankTextLines(normalized);
      assert false;
    }
  }

  /** The inner loop of `extract_first_text_block`: collects `block_lines`
      from line `j0` on, starting from `init`. */
  method CollectBlockLines(lines: seq<string>, j0: nat, init: seq<string>) returns (blockLines: seq<string>)
    ensures blockLines == ScanLabelled(lines, j0, init)
  {
    blockLines := init;
    var j := j0;
    var done := false;
    while j < |lines| && !done
      invariant j0 <= j
      invariant done ==> ScanLabelled(lines, j0, init) == blockLines
      invariant !done ==> ScanLabelled(lines, j0, init) == ScanLabelled(lines, j, blockLines)
      decreases |lines| - j, if done then 0 else 1
    {
      var stripped := Strip(lines[j]);
      ghost var rest := ScanLabelled(lines, j, blockLines);
      if stripped == [] {
        if blockLines != [] {
          assert rest == blockLines;
          done := true;
        } else {
          assert rest == ScanLabelled(lines, j + 1, blockLines);
          j := j + 1;
        }
      } else if IsAbstractSection(stripped) {
        assert rest == blockLines;
        done := true;
      } else if HasAbstractNoise(stripped) {
        assert rest == ScanLabelled(lines, j + 1, blockLines);
        j := j + 1;
      } else if blockLines != [] && IsShoutedHeading(stripped) {
        assert rest == blockLines;
        done := true;
      } else {
        blockLines := blockLines + [stripped];
        if |Join(blockLines, " ")| > 4000 {
          assert rest == blockLines;
          done := true;
        } else {
          assert rest == ScanLabelled(lines, j + 1, blockLines);
          j := j + 1;
        }
      }
    }
  }

  /** The block fallback loop of `extract_first_text_block`, over any
      cleaning function and acceptance test. */
  method FirstGoodBlockLoop(blocks: seq<seq<string>>, clean: string -> string, good: string -> bool) returns (r: string)
    ensures r == (match FirstAccepted(blocks, 0, clean, good) case Some(c) => c case None => [])
  {
    var k := 0;
    while k < |blocks|
      invariant 0 <= k <= |blocks|
      invariant FirstAccepted(blocks, 0, clean, good) == FirstAccepted(blocks, k, clean, good)
    {
      var candidate := clean(Join(blocks[k], " "));
      if good(candidate) {
        return candidate;
      }
      k := k + 1;
    }
    return [];
  }

  /** One turn of the outer loop of `extract_first_text_block`: the
      accepted candidate of the label line at `idx`, or `None` to go on. */
  method TryLabelLine(lines: seq<string>, idx: nat) returns (found: Option<string>)
    requires idx < |lines|
    ensures found.Some? ==> LabelledFrom(lines, idx) == found
    ensures found.None? ==> LabelledFrom(lines, idx) == LabelledFrom(lines, idx + 1)
  {
    if !IsAbstractLabel(lines[idx]) {
      return None;
    }
    var inline := InlineRest(lines[idx]);
    var blockLines := CollectBlockLines(lines, idx + 1, if Strip(inline) != [] then [inline] else []);
    var candidate := CleanAbstractText(Join(blockLines, " "));
    assert candidate == LabelledCandidate(lines, idx);
    if candidate != [] && LooksLikeAbstract(candidate) {
      assert LabelQualifies(lines, idx);
      return Some(candidate);
    }
    return None;
  }

  /** The outer loop of `extract_first_text_block` over the label lines. */
  method LabelledLoop(lines: seq<string>) returns (r: Option<string>)
    ensures r == LabelledFrom(lines, 0)
  {
    var idx := 0;
    while idx < |lines|
      invariant 0 <= idx <= |lines|
      invariant LabelledFrom(lines, 0) == LabelledFrom(lines, idx)
    {
      var found := TryLabelLine(lines, idx);
      if found.Some? {
        return found;
      }
      idx := idx + 1;
    }
    return None;
  }

  /** `extract_first_text_block`, with the loops of the source: the outer
      loop over label lines, the inner loop collecting `block_lines`, then
      the block fallback. */
  method ExtractFirstTextBlock(text: string) returns (r: string)
    ensures r == FirstTextBlock(text)
  {
    var normalized := NormalizeNewlines(text);
    if Strip(normalized) == [] {
      return [];
    }
    var labelled := LabelledLoop(AbstractLines(normalized));
    if labelled.Some? {
      return labelled.value;
    }
    var blocks := Candidates.SplitTextBlocks(normalized, 40);
    r := FirstGoodBlockLoop(blocks, CleanAbstractText, GoodBlock);
  }

  // ---------------------------------------------------------------------------
  // guess_abstract_for_row (CODE/bib.py:589-605)
  // ---------------------------------------------------------------------------

  /** The types that get a template abstract. */
  function TemplateTypes(): set<string> { {"book", "thesis", "slides", "poster"} }

  /** `doc_type.capitalize()` for a lower-case type. */
  function Capitalize(t: string): (r: string)
    ensures |r| == |t|
  {
    if t == [] then [] else [UpperChar(t[0])] + Lower(t[1..])
  }

  /** `guess_abstract_for_row(row, from_pdfs)`. `pdfText` is the full text
      of the row's PDF, `None` when the file does not exist (the call to
      `pdftotext` is outside the model). */
  function GuessAbstractForRow(row: map<string, string>, fromPdfs: bool, pdfText: Option<string>): (r: string)
  {
    var fromPdf := if fromPdfs && pdfText.Some? then FirstTextBlock(pdfText.value) else [];
    if fromPdf != [] then fromPdf
    else
      var notes := CleanAbstractText(Get(row, "notes"));
      if notes != [] then notes
      else
        var title := NormalizeTitle(Get(row, "title"));
        var docType := Lower(Strip(Get(row, "type")));
        if title != [] && docType in TemplateTypes() then Capitalize(docType) + " focused on " + title + "."
        else []
  }

  /** The order of the sources: the PDF's own abstract, then the cleaned
      notes, then the template for the four document types, then nothing.
      Without an abstract from the PDF (none read, or one that gave nothing)
      the notes win whenever they clean to something. */
  lemma GuessAbstractOrder(row: map<string, string>, fromPdfs: bool, pdfText: Option<string>)
    ensures var r := GuessAbstractForRow(row, fromPdfs, pdfText);
      var notes := CleanAbstractText(Get(row, "notes"));
      var title := NormalizeTitle(Get(row, "title"));
      var docType := Lower(Strip(Get(row, "type")));
      && (fromPdfs && pdfText.Some? && FirstTextBlock(pdfText.value) != [] ==> r == FirstTextBlock(pdfText.value))
      && ((!fromPdfs || pdfText.None? || FirstTextBlock(pdfText.value) == []) && notes != [] ==> r == notes)
      && ((!fromPdfs || pdfText.None? || FirstTextBlock(pdfText.value) == []) && notes == []
            && title != [] && docType in TemplateTypes()
          ==> r == Capitalize(docType) + " focused on " + title + ".")
      && (r == [] <==> (!fromPdfs || pdfText.None? || FirstTextBlock(pdfText.value) == [])
                       && notes == [] && (title == [] || docType !in TemplateTypes()))
  {
    var title := NormalizeTitle(Get(row, "title"));
    var docType := Lower(Strip(Get(row, "type")));
    if title != [] && docType in TemplateTypes() {
      assert |Capitalize(docType) + " focused on " + title + "."| > 0;
    }
  }
}
