/** Fields inferred from a PDF's file name, its `pdfinfo` dictionary and its
    first-page text: `infer_year`, `infer_type`, `extract_author` and
    `extract_doi` (CODE/bib.py:381-452). */
module Inference {
  import opened Wrappers
  import opened Text

  // ---------------------------------------------------------------------------
  // The regexes of infer_year
  // ---------------------------------------------------------------------------

  /** The regex `(19|20)\d{2}` matches at `i`. */
  predicate CenturyYearAt(s: string, i: int) {
    0 <= i && i + 4 <= |s|
    && ((s[i] == '1' && s[i + 1] == '9') || (s[i] == '2' && s[i + 1] == '0'))
    && IsDigit(s[i + 2]) && IsDigit(s[i + 3])
  }

  /** Four ASCII digits. */
  predicate IsFourDigits(y: string) {
    |y| == 4 && IsDigit(y[0]) && IsDigit(y[1]) && IsDigit(y[2]) && IsDigit(y[3])
  }

  /** The leftmost match of `(19|20)\d{2}` at or after `k`. */
  function FindCenturyYear(s: string, k: nat): (r: Option<nat>)
    decreases |s| - k
    ensures r.Some? ==> k <= r.value && CenturyYearAt(s, r.value)
    ensures forall j | k <= j && (r.None? || j < r.value) :: !CenturyYearAt(s, j)
  {
    if k + 4 > |s| then None
    else if CenturyYearAt(s, k) then Some(k)
    else FindCenturyYear(s, k + 1)
  }

  /** `re.search(r"(19|20)\d{2}", s).group(0)`, when there is a match. */
  function SearchCenturyYear(s: string): (r: Option<string>)
    ensures r.Some? ==> IsFourDigits(r.value) && (r.value[0] == '1' || r.value[0] == '2')
    ensures r.Some? ==> r.value[0] != '0'
  {
    match FindCenturyYear(s, 0)
    case None => None
    case Some(i) => Some(s[i..i + 4])
  }

  /** `ARXIV_RE`, `(?<!\d)(\d{2})(\d{2})\.\d{4,5}(?:v\d+)?(?!\d)`, matches at
      `i`: no digit before, four digits and a dot, then a run of exactly four
      or five digits. (After five digits the optional `v\d+` is either taken
      whole or skipped, and neither leaves a digit next; after six or more
      digits no choice of four or five is followed by a non-digit.) */
  predicate ArxivIdAt(s: string, i: int) {
    0 <= i && i + 9 <= |s| && (i == 0 || !IsDigit(s[i - 1]))
    && IsDigit(s[i]) && IsDigit(s[i + 1]) && IsDigit(s[i + 2]) && IsDigit(s[i + 3])
    && s[i + 4] == '.'
    && 4 <= DigitRunEnd(s, i + 5) - (i + 5) <= 5
  }

  /** The leftmost match of `ARXIV_RE` at or after `k`. */
  function FindArxivId(s: string, k: nat): (r: Option<nat>)
    decreases |s| - k
    ensures r.Some? ==> k <= r.value && ArxivIdAt(s, r.value)
    ensures forall j | k <= j && (r.None? || j < r.value) :: !ArxivIdAt(s, j)
  {
    if k + 9 > |s| then None
    else if ArxivIdAt(s, k) then Some(k)
    else FindArxivId(s, k + 1)
  }

  /** `ARXIV_TEXT_RE`, `arxiv:\s*(\d{4})\.(\d{4,5})` ignoring case, matches
      at `i`; its first group then starts at `SpaceRunEnd(s, i + 6)`. */
  predicate ArxivTextAt(s: string, i: int) {
    0 <= i && i + 6 <= |s|
    && LowerChar(s[i]) == 'a' && LowerChar(s[i + 1]) == 'r' && LowerChar(s[i + 2]) == 'x'
    && LowerChar(s[i + 3]) == 'i' && LowerChar(s[i + 4]) == 'v' && s[i + 5] == ':'
    && var j := SpaceRunEnd(s, i + 6);
    j + 9 <= |s|
    && IsDigit(s[j]) && IsDigit(s[j + 1]) && IsDigit(s[j + 2]) && IsDigit(s[j + 3])
    && s[j + 4] == '.'
    && IsDigit(s[j + 5]) && IsDigit(s[j + 6]) && IsDigit(s[j + 7]) && IsDigit(s[j + 8])
  }

  /** The leftmost match of `ARXIV_TEXT_RE` at or after `k`. */
  function FindArxivText(s: string, k: nat): (r: Option<nat>)
    decreases |s| - k
    ensures r.Some? ==> k <= r.value && ArxivTextAt(s, r.value)
    ensures forall j | k <= j && (r.None? || j < r.value) :: !ArxivTextAt(s, j)
  {
    if k + 6 > |s| then None
    else if ArxivTextAt(s, k) then Some(k)
    else FindArxivText(s, k + 1)
  }

  /** The regex `\b(?:19|20)\d{2}\b` matches at `i`. Such matches cannot
      overlap, so `re.findall` returns all of them. */
  predicate WordYearAt(s: string, i: int) {
    CenturyYearAt(s, i) && Boundary(s, i) && Boundary(s, i + 4)
  }

  /** `int(s[i:i+4])` for a match of `(19|20)\d{2}`. */
  function YearValue(s: string, i: int): (v: nat)
    requires CenturyYearAt(s, i)
    ensures 1900 <= v <= 2099
  {
    var d2 := s[i + 2] as int - '0' as int;
    var d3 := s[i + 3] as int - '0' as int;
    (if s[i] == '1' then 1900 else 2000) + 10 * d2 + d3
  }

  /** `max(int(y) for y in re.findall(r"\b(?:19|20)\d{2}\b", s[k:]))`, or
      `None` when there is no match. */
  function MaxWordYear(s: string, k: nat): (r: Option<nat>)
    decreases |s| - k
    ensures r.Some? ==> exists i | k <= i :: WordYearAt(s, i) && YearValue(s, i) == r.value
    ensures forall i | k <= i && WordYearAt(s, i) :: r.Some? && YearValue(s, i) <= r.value
  {
    if k + 4 > |s| then None
    else
      var rest := MaxWordYear(s, k + 1);
      if !WordYearAt(s, k) then rest
      else if rest.Some? && rest.value >= YearValue(s, k) then rest
      else Some(YearValue(s, k))
  }

  /** `str(n)` of a number from 1000 to 9999 is its four digits, the
      first of them not `0`. */
  lemma FourDigitNumeral(n: nat)
    requires 1000 <= n < 10000
    ensures IsFourDigits(NatToString(n)) && NatToString(n)[0] != '0'
  {
    var a, b, c := n / 10, n / 100, n / 1000;
    assert a / 10 == b && b / 10 == c;
    assert 1 <= c < 10 && 10 <= b < 100 && 100 <= a < 1000;
    assert NatToString(c) == [DigitChar(c)];
    assert NatToString(b) == [DigitChar(c), DigitChar(b % 10)];
    assert NatToString(a) == [DigitChar(c), DigitChar(b % 10), DigitChar(a % 10)];
    assert NatToString(n) == [DigitChar(c), DigitChar(b % 10), DigitChar(a % 10), DigitChar(n % 10)];
  }

  // ---------------------------------------------------------------------------
  // infer_year (CODE/bib.py:381-410)
  // ---------------------------------------------------------------------------

  /** Stage 1: a year in `CreationDate`. */
  function YearFromCreation(info: map<string, string>): Option<string>
  {
    SearchCenturyYear(Get(info, "CreationDate"))
  }

  /** Stage 2: `20yy` from an arXiv identifier `yymm.nnnnn` in the file name.
      `f"20{int(yy):02d}"` gives back the same two digits. */
  function YearFromArxivName(filename: string): (r: Option<string>)
    ensures r.Some? ==> IsFourDigits(r.value) && r.value[0] == '2' && r.value[1] == '0'
  {
    match FindArxivId(filename, 0)
    case None => None
    case Some(i) => Some("20" + filename[i..i + 2])
  }

  /** Stage 3: `20yy` from an `arxiv:` identifier in the text. */
  function YearFromArxivText(text: string): (r: Option<string>)
    ensures r.Some? ==> IsFourDigits(r.value) && r.value[0] == '2' && r.value[1] == '0'
  {
    match FindArxivText(text, 0)
    case None => None
    case Some(i) =>
      var j := SpaceRunEnd(text, i + 6);
      Some("20" + text[j..j + 2])
  }

  /** Stage 4: a year in the file name. */
  function YearFromFileName(filename: string): Option<string>
  {
    SearchCenturyYear(filename)
  }

  /** Stage 5: the latest year that stands as a word in the text. */
  function LatestYearInText(text: string): (r: Option<string>)
    ensures r.Some? ==> IsFourDigits(r.value) && r.value[0] != '0'
  {
    match MaxWordYear(text, 0)
    case None => None
    case Some(v) =>
      FourDigitNumeral(v);
      Some(NatToString(v))
  }

  /** `infer_year(filename, info, text)`: the first stage that finds a year,
      else `"0000"`. The result is always four digits, and since every
      stage's year starts with 19 or 20 it is `"0000"` exactly when no stage
      finds one. */
  function InferYear(filename: string, info: map<string, string>, text: string): (r: string)
    ensures IsFourDigits(r)
    ensures r == "0000" <==>
      YearFromCreation(info).None? && YearFromArxivName(filename).None?
      && YearFromArxivText(text).None? && YearFromFileName(filename).None?
      && LatestYearInText(text).None?
  {
    match YearFromCreation(info)
    case Some(y) => y
    case None =>
      match YearFromArxivName(filename)
      case Some(y) => y
      case None =>
        match YearFromArxivText(text)
        case Some(y) => y
        case None =>
          match YearFromFileName(filename)
          case Some(y) => y
          case None =>
            match LatestYearInText(text)
            case Some(y) => y
            case None => "0000"
  }

  /** A `CreationDate` with a year wins: the result is its leftmost
      19xx/20xx. */
  lemma InferYearFromCreation(filename: string, info: map<string, string>, text: string, i: nat)
    requires CenturyYearAt(Get(info, "CreationDate"), i)
    requires forall j | 0 <= j < i :: !CenturyYearAt(Get(info, "CreationDate"), j)
    ensures InferYear(filename, info, text) == Get(info, "CreationDate")[i..i + 4]
  {
    var f := FindCenturyYear(Get(info, "CreationDate"), 0);
    assert f.Some? && f.value == i;
  }

  /** Stage 2: with no year in `CreationDate`, the first arXiv identifier
      of the file name gives `20` followed by its first two digits. */
  lemma InferYearFromArxivName(filename: string, info: map<string, string>, text: string, i: nat)
    requires forall j | 0 <= j :: !CenturyYearAt(Get(info, "CreationDate"), j)
    requires ArxivIdAt(filename, i)
    requires forall j | 0 <= j < i :: !ArxivIdAt(filename, j)
    ensures InferYear(filename, info, text) == "20" + filename[i..i + 2]
  {
    assert FindCenturyYear(Get(info, "CreationDate"), 0).None?;
    var f := FindArxivId(filename, 0);
    assert f.Some? && f.value == i;
  }

  /** Stage 3: with no year in `CreationDate` and no arXiv identifier in
      the file name, the first `arXiv:` reference of the text gives `20`
      followed by the first two digits of its number. */
  lemma InferYearFromArxivText(filename: string, info: map<string, string>, text: string, i: nat)
    requires forall j | 0 <= j :: !CenturyYearAt(Get(info, "CreationDate"), j)
    requires forall j | 0 <= j :: !ArxivIdAt(filename, j)
    requires ArxivTextAt(text, i)
    requires forall j | 0 <= j < i :: !ArxivTextAt(text, j)
    ensures var n := SpaceRunEnd(text, i + 6); InferYear(filename, info, text) == "20" + text[n..n + 2]
  {
    assert FindCenturyYear(Get(info, "CreationDate"), 0).None?;
    assert FindArxivId(filename, 0).None?;
    var f := FindArxivText(text, 0);
    assert f.Some? && f.value == i;
  }

  /** Stage 4: with none of the above, the first year of the file name. */
  lemma InferYearFromFileName(filename: string, info: map<string, string>, text: string, i: nat)
    requires forall j | 0 <= j :: !CenturyYearAt(Get(info, "CreationDate"), j)
    requires forall j | 0 <= j :: !ArxivIdAt(filename, j)
    requires forall j | 0 <= j :: !ArxivTextAt(text, j)
    requires CenturyYearAt(filename, i)
    requires forall j | 0 <= j < i :: !CenturyYearAt(filename, j)
    ensures InferYear(filename, info, text) == filename[i..i + 4]
  {
    assert FindCenturyYear(Get(info, "CreationDate"), 0).None?;
    assert FindArxivId(filename, 0).None?;
    assert FindArxivText(text, 0).None?;
    var f := FindCenturyYear(filename, 0);
    assert f.Some? && f.value == i;
  }

  /** When only the last stage finds a year, the result is the latest year
      standing as a word in the text: no such year exceeds it, and it is one
      of them. */
  lemma InferYearLatest(filename: string, info: map<string, string>, text: string)
    requires YearFromCreation(info).None? && YearFromArxivName(filename).None?
    requires YearFromArxivText(text).None? && YearFromFileName(filename).None?
    requires exists i | 0 <= i :: WordYearAt(text, i)
    ensures exists i | 0 <= i :: WordYearAt(text, i) && InferYear(filename, info, text) == NatToString(YearValue(text, i))
    ensures forall i | 0 <= i && WordYearAt(text, i) :: YearValue(text, i) <= MaxWordYear(text, 0).value
    ensures InferYear(filename, info, text) == NatToString(MaxWordYear(text, 0).value)
  {
    var i :| 0 <= i && WordYearAt(text, i);
    assert MaxWordYear(text, 0).Some?;
  }

  /** The file `{stem}.pdf` with no `CreationDate`, no text and a stem that
      starts with a 19xx/20xx year and holds no dot: the year comes from the
      file name, and it is the stem's first four characters. */
  lemma InferYearOfYearStem(stem: string)
    requires CenturyYearAt(stem, 0) && '.' !in stem
    ensures InferYear(stem + ".pdf", map[], "") == stem[..4]
  {
    var f := stem + ".pdf";
    assert Get(map[], "CreationDate") == [];
    forall j | 0 <= j ensures !ArxivIdAt(f, j) {
      if j + 9 <= |f| {
        assert f[j + 4] == stem[j + 4];
      }
    }
    assert f[..4] == stem[..4];
    InferYearFromFileName(f, map[], "", 0);
  }

  // ---------------------------------------------------------------------------
  // infer_type (CODE/bib.py:413-425)
  // ---------------------------------------------------------------------------

  /** The lower-cased haystack `" ".join([filename, title, Creator])`. */
  function TypeHaystack(filename: string, info: map<string, string>, title: string): string
  {
    Lower(filename + " " + title + " " + Get(info, "Creator"))
  }

  function DocTypes(): set<string> { {"thesis", "slides", "poster", "preprint", "book", "article"} }

  predicate SaysThesis(h: string) { Contains(h, "thesis") || Contains(h, "phd") }
  predicate SaysSlides(h: string) { Contains(h, "slides") || Contains(h, "presentation") }
  predicate SaysPoster(h: string) { Contains(h, "poster") }
  predicate SaysArxiv(h: string) { Contains(h, "arxiv") }
  predicate SaysBook(h: string) { Contains(h, "book") }

  /** `infer_type(filename, info, title)`: the first keyword group that
      occurs in the haystack decides the type. */
  function InferType(filename: string, info: map<string, string>, title: string): (r: string)
    ensures r in DocTypes()
  {
    var h := TypeHaystack(filename, info, title);
    if SaysThesis(h) then "thesis"
    else if SaysSlides(h) then "slides"
    else if SaysPoster(h) then "poster"
    else if SaysArxiv(h) then "preprint"
    else if SaysBook(h) then "book"
    else "article"
  }

  /** First match wins, in the order thesis, slides, poster, preprint,
      book; `"article"` exactly when no keyword occurs. */
  lemma InferTypeFirstMatch(filename: string, info: map<string, string>, title: string)
    ensures var h := TypeHaystack(filename, info, title);
      var r := InferType(filename, info, title);
      && (r == "thesis" <==> SaysThesis(h))
      && (r == "slides" <==> !SaysThesis(h) && SaysSlides(h))
      && (r == "poster" <==> !SaysThesis(h) && !SaysSlides(h) && SaysPoster(h))
      && (r == "preprint" <==> !SaysThesis(h) && !SaysSlides(h) && !SaysPoster(h) && SaysArxiv(h))
      && (r == "book" <==> !SaysThesis(h) && !SaysSlides(h) && !SaysPoster(h) && !SaysArxiv(h) && SaysBook(h))
      && (r == "article" <==> !SaysThesis(h) && !SaysSlides(h) && !SaysPoster(h) && !SaysArxiv(h) && !SaysBook(h))
  {
  }

  /** The haystack of the file `{y}_{w}.pdf` titled `{y} {w}` with no
      `Creator`, for digits `y` and a word `w` over `[a-z0-9]`. */
  function WordsHaystack(y: string, w: string): string {
    y + "_" + w + ".pdf " + y + " " + w + " "
  }

  /** The pieces of that haystack: the two copies of `w`, the extension and
      the characters after each. */
  lemma WordsHaystackParts(y: string, w: string)
    ensures var h := WordsHaystack(y, w); var n, m := |y|, |w|;
      && |h| == 2 * n + 2 * m + 8
      && h[n + 1..n + 1 + m] == w && h[n + 1 + m] == '.'
      && h[n + 2 + m..n + 5 + m] == "pdf" && h[n + 5 + m] == ' '
      && h[2 * n + 7 + m..2 * n + 7 + 2 * m] == w && h[2 * n + 7 + 2 * m] == ' '
  {
    var h := WordsHaystack(y, w);
    var n, m := |y|, |w|;
    var front := y + "_" + w + ".pdf ";
    var back := y + " " + w + " ";
    assert h == front + back;
    assert front[n + 1..n + 1 + m] == w && front[n + 1 + m] == '.';
    assert front[n + 2 + m..n + 5 + m] == "pdf" && front[n + 5 + m] == ' ';
    assert back[n + 1..n + 1 + m] == w && back[n + 1 + m] == ' ';
    assert h[n + 1..n + 1 + m] == front[n + 1..n + 1 + m];
    assert h[n + 2 + m..n + 5 + m] == front[n + 2 + m..n + 5 + m];
    assert h[2 * n + 7 + m..2 * n + 7 + 2 * m] == back[n + 1..n + 1 + m];
  }

  /** In that haystack no character is a capital, and the lower-case
      letters are those of the two copies of `w` and of the extension. */
  lemma WordsLetterAt(y: string, w: string, k: nat)
    requires forall j | 0 <= j < |y| :: IsDigit(y[j])
    requires forall j | 0 <= j < |w| :: IsLowerChar(w[j]) || IsDigit(w[j])
    requires k < |WordsHaystack(y, w)|
    ensures var h := WordsHaystack(y, w); var n, m := |y|, |w|;
      && !IsUpperChar(h[k])
      && (IsLowerChar(h[k]) ==>
            n + 1 <= k < n + 1 + m || n + 2 + m <= k < n + 5 + m || 2 * n + 7 + m <= k < 2 * n + 7 + 2 * m)
  {
    var h := WordsHaystack(y, w);
    var n, m := |y|, |w|;
    assert h == y + ("_" + w + ".pdf ") + y + (" " + w + " ");
    if k < n { assert h[k] == y[k]; }
    else if n + 1 <= k < n + 1 + m { assert h[k] == w[k - n - 1]; }
    else if n + 6 + m <= k < 2 * n + 6 + m { assert h[k] == y[k - n - 6 - m]; }
    else if 2 * n + 7 + m <= k < 2 * n + 7 + 2 * m { assert h[k] == w[k - 2 * n - 7 - m]; }
  }

  /** A non-empty word of lower-case ASCII letters. */
  predicate IsLowerWord(p: string) {
    p != [] && forall k | 0 <= k < |p| :: IsLowerChar(p[k])
  }

  /** A match of a lower-case word that starts before the non-letter at
      `b` ends before it too, so it is a match inside `h[a..b]`. */
  lemma MatchWithinRun(h: string, p: string, i: nat, a: nat, b: nat)
    requires IsLowerWord(p)
    requires MatchAt(h, p, i) && a <= i <= b < |h| && !IsLowerChar(h[b])
    ensures Contains(h[a..b], p)
  {
    assert h[i..i + |p|] == p;
    assert forall k | i <= k < i + |p| :: h[k] == p[k - i];
    assert i + |p| <= b;
    var t := h[a..b];
    assert forall k | 0 <= k < |p| :: t[i - a + k] == h[i + k] == p[k];
    assert t[i - a..i - a + |p|] == p;
    assert MatchAt(t, p, i - a);
  }

  /** Where a lower-case word matches in the haystack, it matches in `w` or
      in the extension. */
  lemma MatchInWords(y: string, w: string, p: string, i: nat)
    requires forall k | 0 <= k < |y| :: IsDigit(y[k])
    requires forall k | 0 <= k < |w| :: IsLowerChar(w[k]) || IsDigit(w[k])
    requires IsLowerWord(p)
    requires MatchAt(WordsHaystack(y, w), p, i)
    ensures Contains(w, p) || Contains("pdf", p)
  {
    var n, m := |y|, |w|;
    WordsHaystackParts(y, w);
    WordsLetterAt(y, w, i);
    MatchInRuns(WordsHaystack(y, w), p, i, n + 1, n + 1 + m, n + 2 + m, n + 5 + m, 2 * n + 7 + m, 2 * n + 7 + 2 * m);
  }

  /** A lower-case word matching where only three runs, each followed by a
      non-letter, hold lower-case letters, matches inside one of them. */
  lemma MatchInRuns(h: string, p: string, i: nat, a1: nat, b1: nat, a2: nat, b2: nat, a3: nat, b3: nat)
    requires IsLowerWord(p) && MatchAt(h, p, i)
    requires a1 <= b1 < |h| && a2 <= b2 < |h| && a3 <= b3 < |h|
    requires !IsLowerChar(h[b1]) && !IsLowerChar(h[b2]) && !IsLowerChar(h[b3])
    requires i < |h| && IsLowerChar(h[i]) ==> a1 <= i < b1 || a2 <= i < b2 || a3 <= i < b3
    ensures Contains(h[a1..b1], p) || Contains(h[a2..b2], p) || Contains(h[a3..b3], p)
  {
    assert h[i] == p[0];
    if a1 <= i < b1 {
      MatchWithinRun(h, p, i, a1, b1);
    } else if a2 <= i < b2 {
      MatchWithinRun(h, p, i, a2, b2);
    } else {
      MatchWithinRun(h, p, i, a3, b3);
    }
  }

  /** A lower-case word found neither in `w` nor in the extension is not
      in the haystack. */
  lemma KeywordNotInWords(y: string, w: string, p: string)
    requires forall k | 0 <= k < |y| :: IsDigit(y[k])
    requires forall k | 0 <= k < |w| :: IsLowerChar(w[k]) || IsDigit(w[k])
    requires IsLowerWord(p) && !Contains(w, p) && !Contains("pdf", p)
    ensures !Contains(WordsHaystack(y, w), p)
  {
    forall i | 0 <= i <= |WordsHaystack(y, w)| ensures !MatchAt(WordsHaystack(y, w), p, i) {
      if MatchAt(WordsHaystack(y, w), p, i) {
        MatchInWords(y, w, p, i);
      }
    }
  }

  /** The file `{y}_{w}.pdf` titled `{y} {w}`, with no `Creator`, where no
      type keyword occurs in `w`, is an article. */
  lemma InferTypeOfWords(y: string, w: string)
    requires forall k | 0 <= k < |y| :: IsDigit(y[k])
    requires forall k | 0 <= k < |w| :: IsLowerChar(w[k]) || IsDigit(w[k])
    requires !SaysThesis(w) && !SaysSlides(w) && !SaysPoster(w) && !SaysArxiv(w) && !SaysBook(w)
    ensures InferType(y + "_" + w + ".pdf", map[], y + " " + w) == "article"
  {
    var h := WordsHaystack(y, w);
    assert Get(map[], "Creator") == [];
    assert (y + "_" + w + ".pdf") + " " + (y + " " + w) + " " + [] == h;
    WordsHaystackLower(y, w);
    NoKeywordInWords(y, w);
  }

  lemma WordsHaystackLower(y: string, w: string)
    requires forall k | 0 <= k < |y| :: IsDigit(y[k])
    requires forall k | 0 <= k < |w| :: IsLowerChar(w[k]) || IsDigit(w[k])
    ensures Lower(WordsHaystack(y, w)) == WordsHaystack(y, w)
  {
    forall k | 0 <= k < |WordsHaystack(y, w)| ensures !IsUpperChar(WordsHaystack(y, w)[k]) {
      WordsLetterAt(y, w, k);
    }
  }

  /** No keyword group speaks in the haystack when none speaks in `w`. */
  lemma NoKeywordInWords(y: string, w: string)
    requires forall k | 0 <= k < |y| :: IsDigit(y[k])
    requires forall k | 0 <= k < |w| :: IsLowerChar(w[k]) || IsDigit(w[k])
    requires !SaysThesis(w) && !SaysSlides(w) && !SaysPoster(w) && !SaysArxiv(w) && !SaysBook(w)
    ensures var h := WordsHaystack(y, w);
      !SaysThesis(h) && !SaysSlides(h) && !SaysPoster(h) && !SaysArxiv(h) && !SaysBook(h)
  {
    KeywordsLower();
    KeywordNotInWords(y, w, "thesis");
    KeywordNotInWords(y, w, "phd");
    KeywordNotInWords(y, w, "slides");
    KeywordNotInWords(y, w, "presentation");
    KeywordNotInWords(y, w, "poster");
    KeywordNotInWords(y, w, "arxiv");
    KeywordNotInWords(y, w, "book");
  }

  /** The type keywords are lower-case words, and none occurs in the
      extension: only `phd` is short enough, and it differs. */
  lemma KeywordsLower()
    ensures IsLowerWord("thesis") && IsLowerWord("phd") && IsLowerWord("slides") && IsLowerWord("presentation")
    ensures IsLowerWord("poster") && IsLowerWord("arxiv") && IsLowerWord("book")
    ensures !Contains("pdf", "thesis") && !Contains("pdf", "phd") && !Contains("pdf", "slides")
    ensures !Contains("pdf", "presentation") && !Contains("pdf", "poster") && !Contains("pdf", "arxiv")
    ensures !Contains("pdf", "book")
  {
    assert !MatchAt("pdf", "phd", 0);
  }

  // ---------------------------------------------------------------------------
  // extract_author, extract_doi (CODE/bib.py:443-452)
  // ---------------------------------------------------------------------------

  /** `extract_author(info)`: the `Author` entry without surrounding
      whitespace. */
  function ExtractAuthor(info: map<string, string>): (r: string)
    ensures r != [] ==> !IsSpace(r[0]) && !IsSpace(r[|r| - 1])
    ensures "Author" !in info ==> r == []
  {
    StripFacts(Get(info, "Author"));
    Strip(Get(info, "Author"))
  }

  /** Storing the extracted author and extracting again changes nothing. */
  lemma ExtractAuthorIdempotent(info: map<string, string>)
    ensures ExtractAuthor(info["Author" := ExtractAuthor(info)]) == ExtractAuthor(info)
  {
    var a := ExtractAuthor(info);
    StripFacts(a);
    if a == [] {
      assert Strip(a) == [];
    }
  }

  /** The characters of the class `[^\s"<>]`. */
  predicate IsDoiChar(c: char) { !IsSpace(c) && c != '"' && c != '<' && c != '>' }

  /** First index at or after `k` that does not hold a DOI character. */
  function DoiRunEnd(s: string, k: nat): (j: nat)
    decreases |s| - k
    ensures k <= j
    ensures j <= |s| || j == k
    ensures forall m | k <= m < j :: IsDoiChar(s[m])
    ensures j < |s| ==> !IsDoiChar(s[j])
  {
    if k < |s| && IsDoiChar(s[k]) then DoiRunEnd(s, k + 1) else k
  }

  /** `10\.\d{4,9}/` matches at `i`; `\d{4,9}` must be the whole digit run,
      since the `/` has to follow it. */
  predicate DoiPrefixAt(s: string, i: int) {
    0 <= i && i + 3 <= |s| && s[i] == '1' && s[i + 1] == '0' && s[i + 2] == '.'
    && var d := DigitRunEnd(s, i + 3);
    4 <= d - (i + 3) <= 9 && d < |s| && s[d] == '/'
  }

  /** `DOI_RE`, `\b10\.\d{4,9}/[^\s"<>]+`, matches at `i`. */
  predicate DoiAt(s: string, i: int) {
    DoiPrefixAt(s, i) && Boundary(s, i)
    && var d := DigitRunEnd(s, i + 3);
    d + 1 < |s| && IsDoiChar(s[d + 1])
  }

  /** The leftmost match of `DOI_RE` at or after `k`. */
  function FindDoi(s: string, k: nat): (r: Option<nat>)
    decreases |s| - k
    ensures r.Some? ==> k <= r.value && DoiAt(s, r.value)
    ensures forall j | k <= j && (r.None? || j < r.value) :: !DoiAt(s, j)
  {
    if k + 3 > |s| then None
    else if DoiAt(s, k) then Some(k)
    else FindDoi(s, k + 1)
  }

  /** The characters `extract_doi` strips from the end of a match. */
  const DoiTrailing: set<char> := {'.', ')', ']', ';', ',', '"'}

  /** The text of a `DOI_RE` match at `i`: `[^\s"<>]+` runs to the end of
      the DOI characters. */
  function DoiMatch(text: string, i: nat): string
    requires DoiAt(text, i)
  {
    text[i..DoiRunEnd(text, DigitRunEnd(text, i + 3) + 1)]
  }

  /** `extract_doi(text)`: the leftmost `DOI_RE` match without trailing
      `.)];,"`. */
  function ExtractDoi(text: string): (r: string)
  {
    match FindDoi(text, 0)
    case None => ""
    case Some(i) => RStripChars(DoiMatch(text, i), DoiTrailing)
  }

  /** `DOI_FULL_RE`, `^10\.\d{4,9}/\S+$`: a whole string that is a DOI. */
  predicate IsFullDoi(s: string) {
    DoiPrefixAt(s, 0)
    && var d := DigitRunEnd(s, 3);
    d + 1 < |s| && !IsSpace(s[d + 1])
    && forall m | d + 1 <= m < |s| :: !IsSpace(s[m]) || (m == |s| - 1 && s[m] == '\n')
  }

  /** A match starts with the DOI prefix and holds a character after it. */
  lemma DoiMatchPrefix(text: string, i: nat)
    requires DoiAt(text, i)
    ensures var m := DoiMatch(text, i); DoiPrefixAt(m, 0) && DigitRunEnd(m, 3) + 1 < |m|
  {
    var d := DigitRunEnd(text, i + 3);
    var e := DoiRunEnd(text, d + 1);
    var m := DoiMatch(text, i);
    assert e >= d + 2 by {
      assert d + 1 < |text| && IsDoiChar(text[d + 1]);
    }
    assert m == text[i..e];
    DigitRunSlice(text, i, e, i + 3);
    assert DigitRunEnd(m, 3) == d - i;
    assert m[0] == '1' && m[1] == '0' && m[2] == '.' && m[d - i] == '/' by {
      assert m[0] == text[i] && m[1] == text[i + 1] && m[2] == text[i + 2] && m[d - i] == text[d];
    }
  }

  /** A match holds DOI characters only. */
  lemma DoiMatchChars(text: string, i: nat)
    requires DoiAt(text, i)
    ensures var m := DoiMatch(text, i); forall k | 0 <= k < |m| :: IsDoiChar(m[k])
  {
    var d := DigitRunEnd(text, i + 3);
    var m := DoiMatch(text, i);
    forall k | 0 <= k < |m| ensures IsDoiChar(m[k]) {
      assert m[k] == text[i + k];
      if k > d - i {
        assert IsDoiChar(text[i + k]);
      }
    }
  }

  /** A match is a DOI prefix followed by DOI characters only. */
  lemma DoiMatchFacts(text: string, i: nat)
    requires DoiAt(text, i)
    ensures var m := DoiMatch(text, i);
      && DoiPrefixAt(m, 0) && DigitRunEnd(m, 3) + 1 < |m|
      && forall k | 0 <= k < |m| :: IsDoiChar(m[k])
  {
    DoiMatchPrefix(text, i);
    DoiMatchChars(text, i);
  }

  /** Stripping `.)];,"` from the end of a match never reaches the `/`. */
  lemma StripDoiTrailing(m: string)
    requires DoiPrefixAt(m, 0) && forall k | 0 <= k < |m| :: IsDoiChar(m[k])
    ensures var r := RStripChars(m, DoiTrailing);
      && DoiPrefixAt(r, 0) && r[|r| - 1] !in DoiTrailing
      && forall k | 0 <= k < |r| :: IsDoiChar(r[k])
  {
    var r := RStripChars(m, DoiTrailing);
    RStripPrefix(m, DoiTrailing);
    var d := DigitRunEnd(m, 3);
    assert |r| > d by {
      assert m[d] !in DoiTrailing;
    }
    DigitRunPrefix(r, m, 3);
    assert r[d] == m[d];
    forall k | 0 <= k < |r| ensures IsDoiChar(r[k]) {
      assert r[k] == m[k];
    }
  }

  /** What `extract_doi` returns: empty exactly when the text has no DOI;
      otherwise a string that starts with the `10.NNNN/` of the leftmost
      match, holds no whitespace, quote or angle bracket, and does not end
      in one of the stripped characters. */
  lemma ExtractDoiFacts(text: string)
    ensures var r := ExtractDoi(text);
      && (r == [] <==> forall i | 0 <= i :: !DoiAt(text, i))
      && (r != [] ==> DoiPrefixAt(r, 0) && r[|r| - 1] !in DoiTrailing
                      && forall m | 0 <= m < |r| :: IsDoiChar(r[m]))
  {
    var r := ExtractDoi(text);
    match FindDoi(text, 0)
    case None =>
      assert r == [];
    case Some(i) =>
      var m := DoiMatch(text, i);
      assert r == RStripChars(m, DoiTrailing);
      assert DoiPrefixAt(m, 0) && forall k | 0 <= k < |m| :: IsDoiChar(m[k]) by {
        DoiMatchFacts(text, i);
      }
      StripDoiTrailing(m);
      assert r != [] && DoiAt(text, i);
      assert r[|r| - 1] !in DoiTrailing;
  }

  /** An extracted DOI with something left after its `/` passes the
      `DOI_FULL_RE` check of `validate_metadata`. */
  lemma ExtractDoiIsFull(text: string)
    requires var r := ExtractDoi(text); r != [] && DigitRunEnd(r, 3) + 1 < |r|
    ensures IsFullDoi(ExtractDoi(text))
  {
    ExtractDoiFacts(text);
  }

  /** A DOI standing alone at the start of the text comes back whole when
      it ends in a character that is not stripped. */
  lemma ExtractDoiOfDoi(doi: string)
    requires DoiAt(doi, 0) && DoiRunEnd(doi, DigitRunEnd(doi, 3) + 1) == |doi|
    requires doi[|doi| - 1] !in DoiTrailing
    ensures ExtractDoi(doi) == doi
  {
    assert FindDoi(doi, 0) == Some(0);
    assert doi[0..|doi|] == doi;
  }

  /** `DigitRunEnd` in a slice that holds the whole run is the run end in
      the whole string, shifted. */
  lemma {:induction false} DigitRunSlice(s: string, i: nat, e: nat, k: nat)
    requires i <= k <= e <= |s| && DigitRunEnd(s, k) < e
    ensures DigitRunEnd(s[i..e], k - i) == DigitRunEnd(s, k) - i
    decreases |s| - k
  {
    if k < |s| && IsDigit(s[k]) {
      assert s[i..e][k - i] == s[k];
      DigitRunSlice(s, i, e, k + 1);
    } else {
      assert s[i..e][k - i] == s[k];
    }
  }

  /** Two strings that agree up to and including the end of a digit run
      have the same run end. */
  lemma {:induction false} DigitRunPrefix(r: string, m: string, k: nat)
    requires k <= |m| && DigitRunEnd(m, k) < |r| <= |m| && r == m[..|r|]
    ensures DigitRunEnd(r, k) == DigitRunEnd(m, k)
    decreases |m| - k
  {
    if IsDigit(m[k]) {
      DigitRunPrefix(r, m, k + 1);
    }
  }
}
