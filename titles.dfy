/** Title clean-up and the heuristics that judge a title (CODE/bib.py:209-297, 890-914). */
module Titles {
  import opened Text

  // ---------------------------------------------------------------------------
  // normalize_title_text (CODE/bib.py:890-914)
  // ---------------------------------------------------------------------------

  /** The thirteen code points of the replacement table. */
  predicate IsTableChar(c: char) {
    c == ' ' || ('ﬁ' <= c <= 'ﬄ') || c == '‐' || c == '‑' || c == '–' || c == '—'
    || c == '‘' || c == '’' || c == '“' || c == '”'
  }

  predicate NoTableChars(s: string) { forall k | 0 <= k < |s| :: !IsTableChar(s[k]) }

  lemma NoTableCharsAppend(a: string, b: string)
    requires NoTableChars(a) && NoTableChars(b)
    ensures NoTableChars(a + b)
  {
    forall k | 0 <= k < |a + b| ensures !IsTableChar((a + b)[k]) {
      if k >= |a| {
        assert (a + b)[k] == b[k - |a|];
      }
    }
  }

  /** What the table replaces one character with. */
  function ReplaceChar(c: char): (r: string)
    ensures 1 <= |r| <= 3
    ensures '_' in r <==> c == '_'
    ensures NoTableChars(r)
    ensures !IsTableChar(c) ==> r == [c]
  {
    if c == 'ﬁ' then "fi"
    else if c == 'ﬂ' then "fl"
    else if c == 'ﬃ' then "ffi"
    else if c == 'ﬄ' then "ffl"
    else if c == '‐' || c == '‑' || c == '–' || c == '—' then "-"
    else if c == '‘' || c == '’' then "'"
    else if c == '“' || c == '”' then "\""
    else if c == ' ' then " "
    else [c]
  }

  /** The thirteen `str.replace` calls. No replacement produces a table
      character, so applying them one after the other is the same as
      replacing every character once, from `i` on. */
  function ReplaceTable(s: string, i: nat): (r: string)
    requires i <= |s|
    decreases |s| - i
    ensures NoTableChars(r)
    ensures ('_' in r) == ('_' in s[i..])
    ensures NoTableChars(s) ==> r == s[i..]
  {
    if i == |s| then []
    else
      var rest := ReplaceTable(s, i + 1);
      assert s[i..] == [s[i]] + s[i + 1..];
      ReplaceChar(s[i]) + rest
  }

  /** `([A-Za-z])-\s+([A-Za-z])` matches at `i`. */
  predicate HyphenBreakAt(s: string, i: nat) {
    i + 2 < |s| && IsLetter(s[i]) && s[i + 1] == '-' && IsSpace(s[i + 2])
    && SpaceRunEnd(s, i + 2) < |s| && IsLetter(s[SpaceRunEnd(s, i + 2)])
  }

  /** `re.sub(r"([A-Za-z])-\s+([A-Za-z])", r"\1-\2", s)` applied from `i`:
      matches are taken left to right and do not overlap. */
  function FixHyphens(s: string, i: nat): (r: string)
    requires i <= |s|
    decreases |s| - i
    ensures NoTableChars(s) ==> NoTableChars(r)
    ensures ('_' in r) == ('_' in s[i..])
  {
    if i >= |s| then []
    else if HyphenBreakAt(s, i) then
      var j := SpaceRunEnd(s, i + 2);
      var rest := FixHyphens(s, j + 1);
      assert forall k | i <= k <= j :: s[k] != '_';
      assert s[i..] == s[i..j + 1] + s[j + 1..];
      [s[i], '-', s[j]] + rest
    else
      var rest := FixHyphens(s, i + 1);
      assert s[i..] == [s[i]] + s[i + 1..];
      [s[i]] + rest
  }

  /** `s[k..k+5]`, compared without regard to case, is `w`. */
  predicate MatchFoldAt(s: string, w: string, k: nat)
    requires |w| == 5
  {
    k + 5 <= |s| && LowerChar(s[k]) == w[0] && LowerChar(s[k + 1]) == w[1] && LowerChar(s[k + 2]) == w[2]
    && LowerChar(s[k + 3]) == w[3] && LowerChar(s[k + 4]) == w[4]
  }

  /** `Tele-\s*scope`, ignoring case, matches at `i`. */
  predicate TelescopeAt(s: string, i: nat) {
    MatchFoldAt(s, "tele-", i) && MatchFoldAt(s, "scope", SpaceRunEnd(s, i + 5))
  }

  /** `re.sub(r"Tele-\s*scope", "Telescope", s, flags=re.IGNORECASE)` from `i`. */
  function FixTelescope(s: string, i: nat): (r: string)
    requires i <= |s|
    decreases |s| - i
    ensures NoTableChars(s) ==> NoTableChars(r)
    ensures ('_' in r) == ('_' in s[i..])
  {
    if i >= |s| then []
    else if TelescopeAt(s, i) then
      var j := SpaceRunEnd(s, i + 5);
      var rest := FixTelescope(s, j + 5);
      TelescopeReplaced(s, i, j, rest);
      "Telescope" + rest
    else
      var rest := FixTelescope(s, i + 1);
      assert s[i..] == [s[i]] + s[i + 1..];
      [s[i]] + rest
  }

  /** Replacing `s[i..j + 5]`, which holds no `_`, by "Telescope" keeps
      both facts `FixTelescope` promises. */
  lemma TelescopeReplaced(s: string, i: nat, j: nat, rest: string)
    requires i < j + 5 <= |s| && TelescopeAt(s, i) && j == SpaceRunEnd(s, i + 5)
    requires NoTableChars(s) ==> NoTableChars(rest)
    requires ('_' in rest) == ('_' in s[j + 5..])
    ensures NoTableChars(s) ==> NoTableChars("Telescope" + rest)
    ensures ('_' in "Telescope" + rest) == ('_' in s[i..])
  {
    assert forall k | i <= k < j + 5 :: s[k] != '_';
    assert s[i..] == s[i..j + 5] + s[j + 5..];
    if NoTableChars(s) {
      assert NoTableChars("Telescope");
      NoTableCharsAppend("Telescope", rest);
    }
  }

  /** `s.replace("?HE ", "THE ")` from `i`. */
  function FixThe(s: string, i: nat): (r: string)
    requires i <= |s|
    decreases |s| - i
    ensures NoTableChars(s) ==> NoTableChars(r)
    ensures ('_' in r) == ('_' in s[i..])
  {
    if i >= |s| then []
    else if MatchAt(s, "?HE ", i) then
      var rest := FixThe(s, i + 4);
      assert s[i..i + 4] == "?HE ";
      assert s[i..] == s[i..i + 4] + s[i + 4..];
      "THE " + rest
    else
      var rest := FixThe(s, i + 1);
      assert s[i..] == [s[i]] + s[i + 1..];
      [s[i]] + rest
  }

  const SpaceHyphen: set<char> := {' ', '-'}

  /** The pipeline of `normalize_title_text` before its final strip. */
  function Squeezed(s: string): (t: string)
    ensures IsCollapsed(t)
    ensures NoTableChars(t)
    ensures '_' in s <==> '_' in t
  {
    var t0 := ReplaceTable(s, 0);
    var t1 := FixHyphens(t0, 0);
    var t2 := FixTelescope(t1, 0);
    var t3 := FixThe(t2, 0);
    var t := Collapse(t3);
    UnderscoreSurvives(s, t0, t1, t2, t3);
    CollapseNoTableChars(t3);
    t
  }

  lemma CharOfCollapse(s: string, c: char)
    requires NoTableChars(s) && c in Collapse(s)
    ensures !IsTableChar(c)
  {
    CollapseChars(s);
    if c != ' ' {
      var m :| 0 <= m < |s| && s[m] == c;
    }
  }

  lemma CollapseNoTableChars(s: string)
    requires NoTableChars(s)
    ensures NoTableChars(Collapse(s))
  {
    var t := Collapse(s);
    forall k | 0 <= k < |t| ensures !IsTableChar(t[k]) {
      CharOfCollapse(s, t[k]);
    }
  }

  lemma UnderscoreSurvives(s: string, t0: string, t1: string, t2: string, t3: string)
    requires t0 == ReplaceTable(s, 0) && t1 == FixHyphens(t0, 0)
    requires t2 == FixTelescope(t1, 0) && t3 == FixThe(t2, 0)
    ensures '_' in s <==> '_' in Collapse(t3)
  {
    assert s[0..] == s && t0[0..] == t0 && t1[0..] == t1 && t2[0..] == t2;
    CollapseChars(t3);
  }

  /** `normalize_title_text` (CODE/bib.py:890-914). What it guarantees about
      its output: none of the table's code points, no whitespace but single
      spaces, no space or hyphen at either end; empty input comes back
      unchanged and an underscore survives (so a title with `_` keeps
      needing a refresh). */
  function NormalizeTitle(s: string): (r: string)
    ensures s == [] ==> r == []
    ensures NoTableChars(r)
    ensures Squashed(r)
    ensures r != [] ==> r[0] !in SpaceHyphen && r[|r| - 1] !in SpaceHyphen
    ensures '_' in s <==> '_' in r
  {
    if s == [] then s
    else
      var t := Squeezed(s);
      var r := StripChars(t, SpaceHyphen);
      NormalizeFacts(t, r);
      r
  }

  lemma NormalizeFacts(t: string, r: string)
    requires IsCollapsed(t) && NoTableChars(t) && r == StripChars(t, SpaceHyphen)
    ensures NoTableChars(r) && Squashed(r)
    ensures '_' in t <==> '_' in r
  {
    var a := StripStart(t, SpaceHyphen);
    SquashedSlice(t, a, a + |r|);
    forall k | 0 <= k < |r| ensures !IsTableChar(r[k]) {
      StripCharsKeeps(t, SpaceHyphen, r[k]);
    }
    if '_' in t {
      StripCharsKeepsOthers(t, SpaceHyphen, '_');
    }
  }

  // ---------------------------------------------------------------------------
  // Concrete behaviour of normalize_title_text
  // ---------------------------------------------------------------------------

  lemma TeleStep1() ensures ReplaceTable("Tele- scope", 0) == "Tele- scope" {
    var s := "Tele- scope";
    forall k | 0 <= k < |s| ensures !IsTableChar(s[k]) {}
    assert NoTableChars(s);
  }
  lemma TeleStep2() ensures FixHyphens("Tele- scope", 0) == "Tele-scope" {
    var s := "Tele- scope";
    TeleHyphens(s);
  }
  lemma TeleHyphens(s: string)
    requires |s| == 11 && s[0] == 'T' && s[1] == 'e' && s[2] == 'l' && s[3] == 'e' && s[4] == '-' && s[5] == ' '
    requires s[6] == 's' && s[7] == 'c' && s[8] == 'o' && s[9] == 'p' && s[10] == 'e'
    ensures FixHyphens(s, 0) == "Tele-scope"
  {
    var r3 := [s[3], '-', s[6]] + s[7..];
    assert FixHyphens(s, 3) == r3 by {
      NoHyphenFrom(s, 7);
      assert SpaceRunEnd(s, 5) == 6;
      assert HyphenBreakAt(s, 3);
    }
    HyphenKeep(s, 2);
    HyphenKeep(s, 1);
    HyphenKeep(s, 0);
    var r := [s[0]] + ([s[1]] + ([s[2]] + r3));
    assert FixHyphens(s, 0) == r;
    TeleChars(r);
  }
  lemma TeleChars(r: string)
    requires |r| == 10 && r[0] == 'T' && r[1] == 'e' && r[2] == 'l' && r[3] == 'e' && r[4] == '-'
    requires r[5] == 's' && r[6] == 'c' && r[7] == 'o' && r[8] == 'p' && r[9] == 'e'
    ensures r == "Tele-scope"
  {
  }
  lemma TeleStep3() ensures FixTelescope("Tele-scope", 0) == "Telescope" {
    var s := "Tele-scope";
    assert SpaceRunEnd(s, 5) == 5;
    assert TelescopeAt(s, 0);
  }
  lemma TeleStep4() ensures FixThe("Telescope", 0) == "Telescope" {
    var s := "Telescope";
    NoTheFrom(s, 0);
    assert s[0..] == s;
  }
  lemma TeleStep5() ensures Collapse("Telescope") == "Telescope" {
    CollapseOfCollapsed("Telescope");
  }
  lemma TeleStep6() ensures StripChars("Telescope", SpaceHyphen) == "Telescope" {
    var s := "Telescope";
    assert s[0] == 'T' && s[|s| - 1] == 'e';
    assert s[0] !in SpaceHyphen && s[|s| - 1] !in SpaceHyphen;
  }
  /** `"Tele- scope"` becomes `"Telescope"`: the hyphen repair joins
      `e- s`, then the `Tele-scope` fix applies. */
  lemma NormalizeTelescope() ensures NormalizeTitle("Tele- scope") == "Telescope" {
    TeleStep1(); TeleStep2(); TeleStep3(); TeleStep4(); TeleStep5(); TeleStep6();
  }

  /** Normalising is not idempotent: re.sub matches do not overlap, so the
      hyphen repair consumes the letter that would start the next match. */
  lemma NormalizeNotIdempotent()
    ensures NormalizeTitle("a- b- c") == "a-b- c"
    ensures NormalizeTitle("a-b- c") == "a-b-c"
  {
    NotIdempotentFirst();
    NotIdempotentSecond();
  }

  lemma NotIdempotentFirst()
    ensures NormalizeTitle("a- b- c") == "a-b- c"
  {
    var s, t := "a- b- c", "a-b- c";
    HyphenStepFirst();
    PlainFirst();
    CollapsedFirst();
    FinishPlain(s, t);
  }

  lemma NotIdempotentSecond()
    ensures NormalizeTitle("a-b- c") == "a-b-c"
  {
    var t, u := "a-b- c", "a-b-c";
    HyphenStepSecond();
    PlainSecond();
    CollapsedSecond();
    FinishPlain(t, u);
  }

  lemma PlainFirst()
    ensures NoTableChars("a- b- c")
    ensures var t := "a-b- c"; forall k | 0 <= k < |t| :: t[k] != 'e' && t[k] != 'E' && t[k] != '?'
  {
    PlainChars("a- b- c");
    PlainChars("a-b- c");
  }

  lemma PlainSecond()
    ensures NoTableChars("a-b- c")
    ensures var u := "a-b-c"; forall k | 0 <= k < |u| :: u[k] != 'e' && u[k] != 'E' && u[k] != '?'
  {
    PlainChars("a-b- c");
    PlainChars("a-b-c");
  }

  lemma CollapsedFirst()
    ensures var t := "a-b- c"; IsCollapsed(t) && t[0] !in SpaceHyphen && t[|t| - 1] !in SpaceHyphen
  {
    var t := "a-b- c";
    assert t[0] == 'a' && t[|t| - 1] == 'c';
  }

  lemma CollapsedSecond()
    ensures var u := "a-b-c"; IsCollapsed(u) && u[0] !in SpaceHyphen && u[|u| - 1] !in SpaceHyphen
  {
    var u := "a-b-c";
    assert u[0] == 'a' && u[|u| - 1] == 'c';
  }

  /** The characters of the non-idempotence example. */
  lemma PlainChars(s: string)
    requires forall k | 0 <= k < |s| :: s[k] in {'a', 'b', 'c', '-', ' '}
    ensures NoTableChars(s)
    ensures forall k | 0 <= k < |s| :: s[k] != 'e' && s[k] != 'E' && s[k] != '?'
  {
  }

  lemma HyphenStepFirst()
    ensures FixHyphens("a- b- c", 0) == "a-b- c"
  {
    var s := "a- b- c";
    assert SpaceRunEnd(s, 2) == 3 && HyphenBreakAt(s, 0);
    assert !HyphenBreakAt(s, 4) && !HyphenBreakAt(s, 5) && !HyphenBreakAt(s, 6);
  }

  lemma HyphenStepSecond()
    ensures FixHyphens("a-b- c", 0) == "a-b-c"
  {
    var t := "a-b- c";
    assert !HyphenBreakAt(t, 0) && !HyphenBreakAt(t, 1);
    assert SpaceRunEnd(t, 4) == 5 && HyphenBreakAt(t, 2);
  }

  /** The rest of the pipeline on plain text after the hyphen repair. */
  lemma FinishPlain(s: string, t: string)
    requires NoTableChars(s) && FixHyphens(s, 0) == t
    requires forall k | 0 <= k < |t| :: t[k] != 'e' && t[k] != 'E' && t[k] != '?'
    requires IsCollapsed(t) && t != [] && t[0] !in SpaceHyphen && t[|t| - 1] !in SpaceHyphen
    ensures NormalizeTitle(s) == t
  {
    NoTelescopeOrThe(t);
    CollapseOfCollapsed(t);
  }

  /** A string without `e`/`E` and `?` is left alone by the two word fixes.  */
  lemma NoTelescopeOrThe(s: string)
    requires forall k | 0 <= k < |s| :: s[k] != 'e' && s[k] != 'E' && s[k] != '?'
    ensures FixTelescope(s, 0) == s && FixThe(s, 0) == s
  {
    NoTelescopeFrom(s, 0);
    NoTheFrom(s, 0);
  }

  lemma {:induction false} NoTelescopeFrom(s: string, i: nat)
    requires i <= |s|
    requires forall k | 0 <= k < |s| :: s[k] != 'e' && s[k] != 'E'
    ensures FixTelescope(s, i) == s[i..]
    decreases |s| - i
  {
    if i < |s| {
      assert !MatchFoldAt(s, "tele-", i) by {
        if i + 5 <= |s| {
          var c := s[i + 1];
          assert c != 'e' && c != 'E';
          assert LowerChar(c) != 'e';
        }
      }
      NoTelescopeFrom(s, i + 1);
    }
  }

  /** A position where no hyphen break starts keeps its character. */
  lemma HyphenKeep(s: string, i: nat)
    requires i + 1 < |s| && s[i + 1] != '-'
    ensures FixHyphens(s, i) == [s[i]] + FixHyphens(s, i + 1)
  {
    assert !HyphenBreakAt(s, i);
  }

  /** Without a hyphen from `i` on, the hyphen repair changes nothing there. */
  lemma {:induction false} NoHyphenFrom(s: string, i: nat)
    requires i <= |s|
    requires forall k | i <= k < |s| :: s[k] != '-'
    ensures FixHyphens(s, i) == s[i..]
    decreases |s| - i
  {
    if i < |s| {
      NoHyphenFrom(s, i + 1);
      assert s[i..] == [s[i]] + s[i + 1..];
    }
  }

  lemma {:induction false} NoTheFrom(s: string, i: nat)
    requires i <= |s|
    requires forall k | 0 <= k < |s| :: s[k] != '?'
    ensures FixThe(s, i) == s[i..]
    decreases |s| - i
  {
    if i < |s| {
      NoTheFrom(s, i + 1);
    }
  }

  /** Collapsed text without table characters, hyphens or `?` is already
      normal: every step of the pipeline leaves it as it is. */
  lemma NormalizePlain(s: string)
    requires s != [] && IsCollapsed(s) && NoTableChars(s)
    requires forall k | 0 <= k < |s| :: s[k] != '-' && s[k] != '?'
    ensures NormalizeTitle(s) == s
  {
    NoHyphenFrom(s, 0);
    NoTelescopeHyphenless(s, 0);
    NoTheFrom(s, 0);
    CollapseOfCollapsed(s);
    assert s[0] !in SpaceHyphen && s[|s| - 1] !in SpaceHyphen;
  }

  /** Without a hyphen, `Tele-\s*scope` cannot match. */
  lemma {:induction false} NoTelescopeHyphenless(s: string, i: nat)
    requires i <= |s|
    requires forall k | 0 <= k < |s| :: s[k] != '-'
    ensures FixTelescope(s, i) == s[i..]
    decreases |s| - i
  {
    if i < |s| {
      assert !MatchFoldAt(s, "tele-", i) by {
        if i + 5 <= |s| {
          assert s[i + 4] != '-';
          assert LowerChar(s[i + 4]) != '-';
        }
      }
      NoTelescopeHyphenless(s, i + 1);
    }
  }

  // ---------------------------------------------------------------------------
  // The title regexes (CODE/bib.py:46-63), as predicates on lower-case text
  // ---------------------------------------------------------------------------

  /** TITLE_NOISE_RE. `vol\.?\b` matches exactly where `\bvol\b` does. */
  function NoiseWords(): seq<string> { ["volume", "vol", "number", "issn", "pii", "afcrl", "indd",
    "confidential", "submitted", "draft version", "research article"] }

  /** TITLE_SECTION_RE, with its optional letters spelled out. */
  function SectionWords(): seq<string> { ["abstract", "summary", "keyword", "keywords", "index term",
    "index terms", "introduction", "references", "acknowledgment", "acknowledgments",
    "acknowledgement", "acknowledgements"] }

  /** TITLE_AFFILIATION_RE. */
  function AffiliationWords(): seq<string> { ["university", "department", "division", "institute",
    "laboratory", "school", "college", "faculty", "center", "centre", "campus", "email"] }

  /** TITLE_EXTRA_NOISE_RE. */
  function ExtraNoiseWords(): seq<string> { ["submission", "manuscript", "file reference", "proof",
    "draft", "confidential", "not for distribution", "temp", "view", "export", "online citation"] }

  /** The words of the trailing-stopword test in `score_title_candidate`. */
  function StopWords(): seq<string> { ["of", "the", "and", "for", "with", "within", "to", "in", "on",
    "at", "from", "by", "a", "an"] }

  /** The words of the extra `vol|volume|number|issn|pii` test in `needs_title_refresh`. */
  function VolWords(): seq<string> { ["vol", "volume", "number", "issn", "pii"] }

  function WholeBadTitles(): seq<string> { ["untitled", "pdf download", "powerpoint presentation"] }
  function BadTitlePrefixes(): seq<string> { ["doi:", "pii:", "arxiv:", "journal of", "proceedings of"] }
  function FileExtensions(): seq<string> { ["pdf", "dvi", "tif", "djvu", "doc"] }

  predicate HasTitleNoise(l: string) { HasAnyWord(l, NoiseWords()) }
  predicate StartsWithSection(l: string) { StartsWithAnyWord(l, SectionWords()) }
  predicate HasAffiliation(l: string) { HasAnyWord(l, AffiliationWords()) }
  predicate HasExtraNoise(l: string) { HasAnyWord(l, ExtraNoiseWords()) }

  /** The last branch of BAD_TITLE_RE, as written: the raw pattern `\\.`
      is a backslash followed by any character but a newline, then one of
      the extensions, then the end. */
  predicate BackslashExtensionAt(l: string, i: int) {
    0 <= i && i + 1 < |l| && l[i] == '\\' && l[i + 1] != '\n'
    && exists k | 0 <= k < |FileExtensions()| :: MatchAt(l, FileExtensions()[k], i + 2) && EndAnchor(l, i + 2 + |FileExtensions()[k]|)
  }

  /** BAD_TITLE_RE.search(l). */
  predicate IsBadTitle(l: string) {
    (exists k | 0 <= k < |WholeBadTitles()| :: l == WholeBadTitles()[k] || l == WholeBadTitles()[k] + "\n")
    || StartsWithAny(l, BadTitlePrefixes())
    || exists i | 0 <= i < |l| :: BackslashExtensionAt(l, i)
  }

  /** `re.match(r"^\d{4}\b", l)`. */
  predicate StartsWithYear(l: string) {
    |l| >= 4 && IsDigit(l[0]) && IsDigit(l[1]) && IsDigit(l[2]) && IsDigit(l[3]) && Boundary(l, 4)
  }

  /** `\b[A-Z]\.` matches at `i`. Matches can never overlap, so
      `len(re.findall(...))` is the number of such `i`. */
  predicate InitialAt(s: string, i: int) {
    0 <= i && i + 1 < |s| && Boundary(s, i) && IsUpperChar(s[i]) && s[i + 1] == '.'
  }

  function CountInitials(s: string, i: nat): (n: nat)
    decreases |s| - i
    ensures n <= |s| - i || i > |s|
  {
    if i >= |s| then 0 else (if InitialAt(s, i) then 1 else 0) + CountInitials(s, i + 1)
  }

  /** `re.search(r"[A-Za-z]\d", s)`. */
  predicate HasLetterDigit(s: string) {
    exists i | 0 <= i < |s| - 1 :: IsLetter(s[i]) && IsDigit(s[i + 1])
  }

  /** First index at or after `k` that does not hold an ASCII letter. */
  function LetterRunEnd(s: string, k: nat): (j: nat)
    decreases |s| - k
    ensures k <= j
    ensures j <= |s| || j == k
    ensures forall m | k <= m < j :: IsLetter(s[m])
  {
    if k < |s| && IsLetter(s[k]) then LetterRunEnd(s, k + 1) else k
  }

  /** `re.findall(r"[A-Za-z]+", s)` from `i`: the maximal runs of letters. */
  function AlphaWords(s: string, i: nat): (ws: seq<string>)
    decreases |s| - i
    ensures forall w | w in ws :: w != [] && forall m | 0 <= m < |w| :: IsLetter(w[m])
  {
    if i >= |s| then []
    else if IsLetter(s[i]) then
      var j := LetterRunEnd(s, i);
      [s[i..j]] + AlphaWords(s, j)
    else AlphaWords(s, i + 1)
  }

  /** How many of `ws` are entirely upper case. */
  function CountUpper(ws: seq<string>): (n: nat)
    ensures n <= |ws|
  {
    if ws == [] then 0 else (if IsUpperStr(ws[0]) then 1 else 0) + CountUpper(ws[1..])
  }

  /** More than three quarters of at least four alphabetic words are upper case. */
  predicate ShoutingWords(s: string) {
    var ws := AlphaWords(s, 0);
    |ws| >= 4 && CountUpper(ws) * 4 > 3 * |ws|
  }

  /** `re.search(r"\b(?:v\d+|version)\b", l)`. A run of digits only ends a
      word where the run ends, so `v\d+\b` needs the whole run. */
  predicate HasVersion(l: string) {
    HasWord(l, "version")
    || exists i | 0 <= i < |l| - 1 :: Boundary(l, i) && l[i] == 'v' && IsDigit(l[i + 1]) && Boundary(l, DigitRunEnd(l, i + 1))
  }

  // ---------------------------------------------------------------------------
  // score_title_candidate (CODE/bib.py:209-267)
  // ---------------------------------------------------------------------------

  /** The two +3 rewards: a plausible number of words and a plausible length. */
  function Rewards(c: string): (r: nat)
    ensures r <= 6
  {
    (if 4 <= WordCount(c) <= 24 then 3 else 0) + (if 24 <= |c| <= 180 then 3 else 0)
  }

  /** A penalty of `w` when it applies, none otherwise. */
  function Weight(applies: bool, w: nat): (r: nat)
    ensures r <= w
  {
    if applies then w else 0
  }

  /** The penalties for noise words, section and affiliation words and a
      bad-title shape in the lower-case candidate `l`. */
  function WordPenalties(l: string): (p: nat)
    ensures p <= 28
  {
    Weight(HasTitleNoise(l), 6)
    + Weight(StartsWithSection(l), 6)
    + Weight(HasExtraNoise(l), 6)
    + Weight(HasAffiliation(l), 4)
    + Weight(IsBadTitle(l), 6)
  }

  /** The penalties for a leading year or "article", and for commas and
      semicolons. */
  function PunctuationPenalties(c: string, l: string, digits: nat): (p: nat)
    ensures p <= 24
  {
    Weight(StartsWithYear(l), 4)
    + Weight(StartsWith(l, "article "), 4)
    + Weight(CountChar(l, ',') >= 2, 2)
    + Weight(CountChar(l, ',') >= 2 && digits > 0, 6)
    + Weight(CountChar(c, ';') >= 2, 8)
  }

  /** The penalties for initials, letter-digit mixes, shouting, version
      strings and a trailing stop word. */
  function ShapePenalties(c: string, l: string): (p: nat)
    ensures p <= 20
  {
    Weight(CountInitials(c, 0) >= 2, 6)
    + Weight(HasLetterDigit(c), 4)
    + Weight(ShoutingWords(c), 4)
    + Weight(HasVersion(l), 2)
    + Weight(EndsWithAnyWord(l, StopWords()), 4)
  }

  /** The penalties for `_`, a final `.`, the digit and letter ratios and
      an all-capitals candidate. */
  function CharacterPenalties(c: string): (p: nat)
    ensures p <= 13
  {
    var alnum, letters, digits := CountAlnum(c), CountLetters(c), CountDigits(c);
    Weight('_' in c, 4)
    + Weight(EndsWith(c, "."), 1)
    + Weight(alnum > 0 && digits * 25 > 6 * alnum, 4)
    + Weight(alnum > 0 && letters * 5 < 3 * alnum, 3)
    + Weight(IsUpperStr(c), 1)
  }

  /** The sum of the penalties that apply to the stripped candidate `c`. The
      two ratio tests are the source's float comparisons `digits / alnum > 0.24`
      and `letters / alnum < 0.6`, written as integer cross-multiplications. */
  function Penalties(c: string): (p: nat)
    ensures p <= 85
  {
    var l := Lower(c);
    WordPenalties(l) + PunctuationPenalties(c, l, CountDigits(c)) + ShapePenalties(c, l) + CharacterPenalties(c)
  }

  /** `score_title_candidate`: -100 exactly for blank text, otherwise the
      rewards minus the penalties, which keeps it within [-85, 6]. */
  function ScoreTitle(text: string): (r: int)
    ensures Strip(text) == [] <==> r == -100
    ensures r != -100 ==> -85 <= r <= 6
  {
    var c := Strip(text);
    if c == [] then -100 else Rewards(c) - Penalties(c)
  }

  // ---------------------------------------------------------------------------
  // is_low_quality_title and needs_title_refresh (CODE/bib.py:270-297)
  // ---------------------------------------------------------------------------

  /** `is_low_quality_title`: the normalised title is empty or scores at
      most zero. A title that is not low quality earns at least one reward. */
  function IsLowQualityTitle(title: string): (r: bool)
    ensures NormalizeTitle(title) == [] ==> r
    ensures !r ==> var c := NormalizeTitle(title); 4 <= WordCount(c) <= 24 || 24 <= |c| <= 180
  {
    var c := NormalizeTitle(title);
    NormalizedIsStripped(title);
    RewardNeeded(c);
    c == [] || ScoreTitle(c) <= 0
  }

  /** A normalised title has no whitespace at either end. */
  lemma NormalizedIsStripped(title: string)
    ensures Strip(NormalizeTitle(title)) == NormalizeTitle(title)
  {
    var c := NormalizeTitle(title);
    if c != [] {
      assert !IsSpace(c[0]) && !IsSpace(c[|c| - 1]);
      StripUnchanged(c);
    }
  }

  /** A positive score needs one of the two rewards. */
  lemma RewardNeeded(text: string)
    ensures ScoreTitle(text) > 0 ==> var c := Strip(text); 4 <= WordCount(c) <= 24 || 24 <= |c| <= 180
  {
    var c := Strip(text);
    if ScoreTitle(text) > 0 {
      assert Rewards(c) > 0;
    }
  }

  /** `needs_title_refresh`: the normalised title is empty, looks like a
      placeholder or a file name, carries a noise word or an underscore, or
      is mostly digits. */
  function NeedsTitleRefresh(title: string): (r: bool)
    ensures NormalizeTitle(title) == [] ==> r
    ensures '_' in title ==> r
  {
    var c := NormalizeTitle(title);
    if c == [] then true
    else
      var l := Lower(c);
      var words, digits, alnum := WordCount(c), CountDigits(c), CountAlnum(c);
      IsBadTitle(l) || HasTitleNoise(l) || '_' in c || HasAnyWord(l, VolWords())
      || (digits >= 6 && words <= 14 && alnum > 0 && digits * 5 > alnum)
  }

  /** The `vol|volume|number|issn|pii` test of `needs_title_refresh` never
      decides anything: each of its words is already a noise word. */
  lemma VolWordsAreNoise(l: string)
    requires HasAnyWord(l, VolWords())
    ensures HasTitleNoise(l)
  {
    var k :| 0 <= k < |VolWords()| && HasWord(l, VolWords()[k]);
    var m := if k == 0 then 1 else if k == 1 then 0 else k;
    assert NoiseWords()[m] == VolWords()[k];
  }
}
