/** Character classes and string helpers shared by the whole model.
    Python's `str` predicates, `lower()`, `strip()`, `split()` and the regex
    classes `\s`, `\d`, `\w` are taken over the ASCII range only. */
module Text {

  // ---------------------------------------------------------------------------
  // Character classes
  // ---------------------------------------------------------------------------

  /** ASCII characters that Python's `str.isspace()` and `\s` accept. */
  predicate IsSpace(c: char) {
    c == ' ' || c == '\t' || c == '\n' || c == '\r' || c == '\U{000B}' || c == '\U{000C}'
    || ('\U{001C}' <= c <= '\U{001F}')
  }

  predicate IsDigit(c: char) { '0' <= c <= '9' }
  predicate IsUpperChar(c: char) { 'A' <= c <= 'Z' }
  predicate IsLowerChar(c: char) { 'a' <= c <= 'z' }
  predicate IsLetter(c: char) { IsUpperChar(c) || IsLowerChar(c) }
  predicate IsAlnum(c: char) { IsLetter(c) || IsDigit(c) }
  /** The characters of the regex class `\w`. */
  predicate IsWordChar(c: char) { IsAlnum(c) || c == '_' }

  function LowerChar(c: char): (r: char)
    ensures !IsUpperChar(r)
    ensures IsLetter(c) <==> IsLetter(r)
    ensures !IsLetter(c) ==> r == c
  {
    if IsUpperChar(c) then (c as int + 32) as char else c
  }

  function UpperChar(c: char): (r: char)
    ensures !IsLowerChar(r)
    ensures !IsLetter(c) ==> r == c
  {
    if IsLowerChar(c) then (c as int - 32) as char else c
  }

  /** `str.lower()` on ASCII. */
  function Lower(s: string): (r: string)
    ensures |r| == |s|
    ensures forall i | 0 <= i < |s| :: r[i] == LowerChar(s[i])
  {
    seq(|s|, i requires 0 <= i < |s| => LowerChar(s[i]))
  }

  predicate NoUpper(s: string) { forall i | 0 <= i < |s| :: !IsUpperChar(s[i]) }

  /** `str.isupper()`: some cased character and no lower-case one. */
  predicate IsUpperStr(s: string) {
    (exists i | 0 <= i < |s| :: IsUpperChar(s[i])) && forall i | 0 <= i < |s| :: !IsLowerChar(s[i])
  }

  // ---------------------------------------------------------------------------
  // Counting
  // ---------------------------------------------------------------------------

  function CountChar(s: string, c: char): (n: nat)
    ensures n <= |s|
    ensures n > 0 <==> c in s
  {
    if s == [] then 0 else (if s[0] == c then 1 else 0) + CountChar(s[1..], c)
  }

  function CountDigits(s: string): (n: nat)
    ensures n <= |s|
    ensures n > 0 <==> exists i | 0 <= i < |s| :: IsDigit(s[i])
  {
    if s == [] then 0
    else
      var rest := CountDigits(s[1..]);
      assert forall i | 1 <= i < |s| :: s[i] == s[1..][i - 1];
      (if IsDigit(s[0]) then 1 else 0) + rest
  }

  function CountLetters(s: string): (n: nat)
    ensures n <= |s|
  {
    if s == [] then 0 else (if IsLetter(s[0]) then 1 else 0) + CountLetters(s[1..])
  }

  function CountAlnum(s: string): (n: nat)
    ensures n == CountLetters(s) + CountDigits(s)
  {
    if s == [] then 0 else (if IsAlnum(s[0]) then 1 else 0) + CountAlnum(s[1..])
  }

  /** `len(s.split())`: the number of maximal runs of non-whitespace. */
  function WordCount(s: string): nat
    decreases |s|
  {
    if s == [] then 0
    else if IsSpace(s[0]) then WordCount(s[1..])
    else 1 + WordCount(DropWord(s))
  }

  /** Drops the leading run of non-whitespace. */
  function DropWord(s: string): (r: string)
    ensures |r| <= |s|
    ensures s != [] && !IsSpace(s[0]) ==> |r| < |s|
    ensures r == [] || IsSpace(r[0])
  {
    if s == [] || IsSpace(s[0]) then s else DropWord(s[1..])
  }

  /** What `DropWord` leaves is a suffix of its input. */
  lemma {:induction false} DropWordSuffix(s: string)
    ensures DropWord(s) == s[|s| - |DropWord(s)|..]
    decreases |s|
  {
    if s != [] && !IsSpace(s[0]) { DropWordSuffix(s[1..]); }
  }

  // ---------------------------------------------------------------------------
  // Substrings, prefixes, word matches
  // ---------------------------------------------------------------------------

  /** `p` occurs in `s` at index `i`. The first characters are spelled out so
      that the solver can rule out positions one character at a time. */
  predicate MatchAt(s: string, p: string, i: int) {
    0 <= i && i + |p| <= |s|
    && (|p| == 0 || s[i] == p[0]) && (|p| < 2 || s[i + 1] == p[1]) && (|p| < 3 || s[i + 2] == p[2])
    && s[i..i + |p|] == p
  }

  /** Python's `p in s`. */
  predicate Contains(s: string, p: string) {
    exists i | 0 <= i <= |s| :: MatchAt(s, p, i)
  }

  predicate StartsWith(s: string, p: string) { MatchAt(s, p, 0) }
  predicate EndsWith(s: string, p: string) { |p| <= |s| && MatchAt(s, p, |s| - |p|) }

  /** The regex assertion `\b` at position `i`. */
  predicate Boundary(s: string, i: int)
    requires 0 <= i <= |s|
  {
    (i > 0 && IsWordChar(s[i - 1])) != (i < |s| && IsWordChar(s[i]))
  }

  /** The regex `\bp\b` matches at `i`. */
  predicate WordAt(s: string, p: string, i: int) {
    MatchAt(s, p, i) && Boundary(s, i) && Boundary(s, i + |p|)
  }

  /** `re.search(r"\bp\b", s)` succeeds. */
  predicate HasWord(s: string, p: string) {
    exists i | 0 <= i <= |s| :: WordAt(s, p, i)
  }

  /** `re.match(r"p\b", s)` succeeds. */
  predicate StartsWithWord(s: string, p: string) {
    MatchAt(s, p, 0) && Boundary(s, |p|)
  }

  predicate HasAnyWord(s: string, ws: seq<string>) {
    exists k | 0 <= k < |ws| :: HasWord(s, ws[k])
  }

  predicate StartsWithAnyWord(s: string, ws: seq<string>) {
    exists k | 0 <= k < |ws| :: StartsWithWord(s, ws[k])
  }

  predicate StartsWithAny(s: string, ps: seq<string>) {
    exists k | 0 <= k < |ps| :: StartsWith(s, ps[k])
  }

  /** The regex anchor `$` at index `e`: the end, or just before a final newline. */
  predicate EndAnchor(s: string, e: int) {
    e == |s| || (e == |s| - 1 && e >= 0 && s[e] == '\n')
  }

  /** `re.search(r"\bp\b$", s)` succeeds. */
  predicate EndsWithWord(s: string, p: string) {
    exists i | 0 <= i <= |s| :: WordAt(s, p, i) && EndAnchor(s, i + |p|)
  }

  predicate EndsWithAnyWord(s: string, ws: seq<string>) {
    exists k | 0 <= k < |ws| :: EndsWithWord(s, ws[k])
  }

  /** First index at or after `k` that does not hold a digit. */
  function DigitRunEnd(s: string, k: nat): (j: nat)
    decreases |s| - k
    ensures k <= j
    ensures j <= |s| || j == k
    ensures forall m | k <= m < j :: IsDigit(s[m])
    ensures j < |s| ==> !IsDigit(s[j])
  {
    if k < |s| && IsDigit(s[k]) then DigitRunEnd(s, k + 1) else k
  }

  /** First index at or after `k` that does not hold whitespace. */
  function SpaceRunEnd(s: string, k: nat): (j: nat)
    decreases |s| - k
    ensures k <= j
    ensures j <= |s| || j == k
    ensures forall m | k <= m < j :: IsSpace(s[m])
    ensures j < |s| ==> !IsSpace(s[j])
  {
    if k < |s| && IsSpace(s[k]) then SpaceRunEnd(s, k + 1) else k
  }

  lemma ContainsCharOf(s: string, p: string, i: int, k: int)
    requires MatchAt(s, p, i) && 0 <= k < |p|
    ensures p[k] in s
  {
    assert s[i..i + |p|][k] == s[i + k];
  }

  // ---------------------------------------------------------------------------
  // Stripping
  // ---------------------------------------------------------------------------

  const Whitespace: set<char> := {' ', '\t', '\n', '\r', '\U{000B}', '\U{000C}', '\U{001C}', '\U{001D}', '\U{001E}', '\U{001F}'}

  lemma WhitespaceIsSpace(c: char)
    ensures c in Whitespace <==> IsSpace(c)
  {
  }

  function LStripChars(s: string, cs: set<char>): (r: string)
    ensures |r| <= |s|
    ensures forall i | 0 <= i < |s| - |r| :: s[i] in cs
    ensures r != [] ==> r[0] !in cs
  {
    if s != [] && s[0] in cs then LStripChars(s[1..], cs) else s
  }

  function RStripChars(s: string, cs: set<char>): (r: string)
    ensures |r| <= |s|
    ensures forall i | |r| <= i < |s| :: s[i] in cs
    ensures r != [] ==> r[|r| - 1] !in cs
  {
    if s != [] && s[|s| - 1] in cs then RStripChars(s[..|s| - 1], cs) else s
  }

  /** `s.lstrip(chars)` is a suffix of `s`. */
  lemma {:induction false} LStripSuffix(s: string, cs: set<char>)
    ensures LStripChars(s, cs) == s[|s| - |LStripChars(s, cs)|..]
    decreases |s|
  {
    if s != [] && s[0] in cs {
      LStripSuffix(s[1..], cs);
    }
  }

  /** `s.rstrip(chars)` is a prefix of `s`. */
  lemma {:induction false} RStripPrefix(s: string, cs: set<char>)
    ensures RStripChars(s, cs) == s[..|RStripChars(s, cs)|]
    decreases |s|
  {
    if s != [] && s[|s| - 1] in cs {
      RStripPrefix(s[..|s| - 1], cs);
    }
  }

  /** Where `StripChars` starts its slice. */
  function StripStart(s: string, cs: set<char>): (a: nat)
    ensures a <= |s|
  {
    |s| - |LStripChars(s, cs)|
  }

  /** `s.strip(chars)`: the slice left after dropping the end characters that are in `cs`. */
  function StripChars(s: string, cs: set<char>): (r: string)
    ensures StripStart(s, cs) + |r| <= |s|
    ensures r == s[StripStart(s, cs)..StripStart(s, cs) + |r|]
    ensures forall i | 0 <= i < StripStart(s, cs) :: s[i] in cs
    ensures forall i | StripStart(s, cs) + |r| <= i < |s| :: s[i] in cs
    ensures r != [] ==> r[0] !in cs && r[|r| - 1] !in cs
    ensures s != [] && s[0] !in cs && s[|s| - 1] !in cs ==> r == s
  {
    var l := LStripChars(s, cs);
    var r := RStripChars(l, cs);
    var a := |s| - |l|;
    LStripSuffix(s, cs);
    RStripPrefix(l, cs);
    assert forall i | a + |r| <= i < |s| :: s[i] == l[i - a];
    r
  }

  /** Every character of the result of `StripChars` comes from its input. */
  lemma StripCharsKeeps(s: string, cs: set<char>, c: char)
    requires c in StripChars(s, cs)
    ensures c in s
  {
    var r := StripChars(s, cs);
    var a := StripStart(s, cs);
    SliceChars(s, a, a + |r|, c);
  }

  /** `StripChars` only removes characters of `cs`. */
  lemma StripCharsKeepsOthers(s: string, cs: set<char>, c: char)
    requires c in s && c !in cs
    ensures c in StripChars(s, cs)
  {
    var r := StripChars(s, cs);
    var a := StripStart(s, cs);
    var k :| 0 <= k < |s| && s[k] == c;
    if a <= k < a + |r| {
      assert r[k - a] == s[k];
    }
  }

  /** `s.lstrip()` (whitespace). */
  function LStripSpace(s: string): string
    decreases |s|
  {
    if s != [] && IsSpace(s[0]) then LStripSpace(s[1..]) else s
  }

  /** `s.rstrip()` (whitespace). */
  function RStripSpace(s: string): string
    decreases |s|
  {
    if s != [] && IsSpace(s[|s| - 1]) then RStripSpace(s[..|s| - 1]) else s
  }

  /** `s.strip()` (whitespace). Its facts are stated by `StripFacts`, so that
      a proof that only carries stripped strings around does not pay for them. */
  function Strip(s: string): string
  {
    RStripSpace(LStripSpace(s))
  }

  lemma {:induction false} LStripSpaceIsLStripChars(s: string)
    ensures LStripSpace(s) == LStripChars(s, Whitespace)
    decreases |s|
  {
    if s != [] {
      WhitespaceIsSpace(s[0]);
      if IsSpace(s[0]) {
        LStripSpaceIsLStripChars(s[1..]);
      }
    }
  }

  lemma {:induction false} RStripSpaceIsRStripChars(s: string)
    ensures RStripSpace(s) == RStripChars(s, Whitespace)
    decreases |s|
  {
    if s != [] {
      WhitespaceIsSpace(s[|s| - 1]);
      if IsSpace(s[|s| - 1]) {
        RStripSpaceIsRStripChars(s[..|s| - 1]);
      }
    }
  }

  lemma StripIsStripChars(s: string)
    ensures Strip(s) == StripChars(s, Whitespace)
  {
    LStripSpaceIsLStripChars(s);
    RStripSpaceIsRStripChars(LStripChars(s, Whitespace));
  }

  /** `s.strip()` is `s.strip(chars)` for the whitespace characters: the
      slice left after dropping whitespace at both ends. */
  lemma StripFacts(s: string)
    ensures Strip(s) == StripChars(s, Whitespace)
    ensures StripStart(s, Whitespace) + |Strip(s)| <= |s|
    ensures Strip(s) == s[StripStart(s, Whitespace)..StripStart(s, Whitespace) + |Strip(s)|]
    ensures forall i | 0 <= i < StripStart(s, Whitespace) :: IsSpace(s[i])
    ensures forall i | StripStart(s, Whitespace) + |Strip(s)| <= i < |s| :: IsSpace(s[i])
    ensures Strip(s) != [] ==> !IsSpace(Strip(s)[0]) && !IsSpace(Strip(s)[|Strip(s)| - 1])
    ensures s != [] && !IsSpace(s[0]) && !IsSpace(s[|s| - 1]) ==> Strip(s) == s
  {
    StripIsStripChars(s);
    var r := StripChars(s, Whitespace);
    forall i | 0 <= i < StripStart(s, Whitespace) ensures IsSpace(s[i]) { WhitespaceIsSpace(s[i]); }
    forall i | StripStart(s, Whitespace) + |r| <= i < |s| ensures IsSpace(s[i]) { WhitespaceIsSpace(s[i]); }
    if r != [] {
      WhitespaceIsSpace(r[0]);
      WhitespaceIsSpace(r[|r| - 1]);
    }
    if s != [] {
      WhitespaceIsSpace(s[0]);
      WhitespaceIsSpace(s[|s| - 1]);
    }
  }

  /** A string with no whitespace at either end is its own `strip()`. */
  lemma StripUnchanged(s: string)
    requires s != [] && !IsSpace(s[0]) && !IsSpace(s[|s| - 1])
    ensures Strip(s) == s
  {
    StripFacts(s);
  }

  lemma StripKeeps(s: string, c: char)
    requires c in Strip(s)
    ensures c in s
  {
    StripFacts(s);
    StripCharsKeeps(s, Whitespace, c);
  }

  /** `s.strip()` only removes whitespace. */
  lemma StripKeepsOthers(s: string, c: char)
    requires c in s && !IsSpace(c)
    ensures c in Strip(s)
  {
    WhitespaceIsSpace(c);
    StripIsStripChars(s);
    StripCharsKeepsOthers(s, Whitespace, c);
  }

  lemma StripEmpty(s: string)
    ensures Strip(s) == [] <==> forall i | 0 <= i < |s| :: IsSpace(s[i])
  {
    var r := Strip(s);
    var a := StripStart(s, Whitespace);
    StripFacts(s);
    if r != [] {
      assert r[0] == s[a] && !IsSpace(s[a]);
    }
  }

  function RStripWhitespace(s: string): (r: string)
    ensures |r| <= |s| && r == s[..|r|]
    ensures r != [] ==> !IsSpace(r[|r| - 1])
  {
    RStripPrefix(s, Whitespace);
    RStripChars(s, Whitespace)
  }

  /** A slice keeps every character it covers. */
  lemma SliceChars(s: string, a: int, b: int, c: char)
    requires 0 <= a <= b <= |s| && c in s[a..b]
    ensures c in s
  {
    var k :| 0 <= k < b - a && s[a..b][k] == c;
    assert s[a + k] == c;
  }

  // ---------------------------------------------------------------------------
  // Whitespace collapsing: re.sub(r"\s+", " ", s).strip()
  // ---------------------------------------------------------------------------

  /** Drops the leading run of whitespace. */
  function DropSpaces(s: string): (r: string)
    ensures |r| <= |s|
    ensures r == [] || !IsSpace(r[0])
    ensures forall i | 0 <= i < |s| - |r| :: IsSpace(s[i])
  {
    if s != [] && IsSpace(s[0]) then DropSpaces(s[1..]) else s
  }

  /** What `DropSpaces` leaves is a suffix of its input. */
  lemma {:induction false} DropSpacesSuffix(s: string)
    ensures DropSpaces(s) == s[|s| - |DropSpaces(s)|..]
    decreases |s|
  {
    if s != [] && IsSpace(s[0]) { DropSpacesSuffix(s[1..]); }
  }

  /** The characters at `i - 1` and `i` are both spaces. */
  predicate SpacePairAt(s: string, i: int) {
    1 <= i < |s| && s[i - 1] == ' ' && s[i] == ' '
  }

  /** No character is whitespace other than a space, and no two spaces are adjacent. */
  predicate Squashed(s: string) {
    (forall i | 0 <= i < |s| :: IsSpace(s[i]) ==> s[i] == ' ')
    && (forall i | 1 <= i < |s| :: !SpacePairAt(s, i))
  }

  /** The shape of `collapse_whitespace`'s output. */
  predicate IsCollapsed(s: string) {
    Squashed(s) && (s != [] ==> s[0] != ' ' && s[|s| - 1] != ' ')
  }

  /** `re.sub(r"\s+", " ", s)`. */
  function SquashSpaces(s: string): (r: string)
    decreases |s|
    ensures Squashed(r)
    ensures (r == []) == (s == [])
    ensures s != [] ==> (IsSpace(s[0]) <==> r[0] == ' ')
    ensures s != [] && !IsSpace(s[0]) ==> r[0] == s[0]
  {
    if s == [] then []
    else if IsSpace(s[0]) then
      var rest := SquashSpaces(DropSpaces(s));
      SquashedCons(' ', rest);
      [' '] + rest
    else
      var rest := SquashSpaces(s[1..]);
      SquashedCons(s[0], rest);
      [s[0]] + rest
  }

  /** Putting `c` in front of a squashed string keeps it squashed, unless both
      `c` and the old first character are spaces. */
  lemma SquashedCons(c: char, rest: string)
    requires Squashed(rest) && (IsSpace(c) ==> c == ' ')
    requires c == ' ' && rest != [] ==> rest[0] != ' '
    ensures Squashed([c] + rest)
  {
    var t := [c] + rest;
    forall i ensures !SpacePairAt(t, i) {
      if 2 <= i < |t| {
        assert t[i - 1] == rest[i - 2] && t[i] == rest[i - 1];
        assert !SpacePairAt(rest, i - 1);
      }
    }
  }

  /** Squashing keeps every non-whitespace character and adds only spaces. */
  lemma {:induction false} SquashChars(s: string)
    ensures forall c | c in SquashSpaces(s) :: c in s || c == ' '
    ensures forall c | c in s && !IsSpace(c) :: c in SquashSpaces(s)
    decreases |s|
  {
    if s == [] {
    } else if IsSpace(s[0]) {
      var t := DropSpaces(s);
      DropSpacesSuffix(s);
      SquashChars(t);
      SquashCharsHelper(s, t, SquashSpaces(t));
    } else {
      SquashChars(s[1..]);
      assert forall c | c in s && !IsSpace(c) && c != s[0] :: c in s[1..];
    }
  }

  lemma SquashCharsHelper(s: string, t: string, rest: string)
    requires s != [] && IsSpace(s[0])
    requires |t| <= |s| && t == s[|s| - |t|..] && forall i | 0 <= i < |s| - |t| :: IsSpace(s[i])
    requires forall c | c in t && !IsSpace(c) :: c in rest
    requires forall c | c in rest :: c in t || c == ' '
    ensures forall c | c in s && !IsSpace(c) :: c in rest
    ensures forall c | c in rest :: c in s || c == ' '
  {
    forall c | c in s && !IsSpace(c) ensures c in rest {
      var k :| 0 <= k < |s| && s[k] == c;
      assert t[k - (|s| - |t|)] == c;
    }
    forall c | c in rest ensures c in s || c == ' ' {
      if c in t { SliceChars(s, |s| - |t|, |s|, c); }
    }
  }

  lemma SquashedSlice(s: string, a: int, b: int)
    requires Squashed(s) && 0 <= a <= b <= |s|
    ensures Squashed(s[a..b])
  {
    var t := s[a..b];
    forall i ensures !SpacePairAt(t, i) {
      if 1 <= i < |t| {
        assert t[i - 1] == s[a + i - 1] && t[i] == s[a + i];
        assert !SpacePairAt(s, a + i);
      }
    }
  }

  /** `collapse_whitespace` (CODE/bib.py:516-517). */
  function Collapse(s: string): (r: string)
    ensures IsCollapsed(r)
  {
    var t := SquashSpaces(s);
    StripSquashed(t);
    Strip(t)
  }

  /** Stripping a squashed string leaves a collapsed one. */
  lemma StripSquashed(t: string)
    requires Squashed(t)
    ensures IsCollapsed(Strip(t))
  {
    var r := Strip(t);
    var a := StripStart(t, Whitespace);
    StripFacts(t);
    SquashedSlice(t, a, a + |r|);
    if r != [] {
      assert !IsSpace(r[0]) && !IsSpace(r[|r| - 1]);
    }
  }

  /** Collapsing keeps every non-whitespace character and adds only spaces. */
  lemma CollapseChars(s: string)
    ensures forall c | c in Collapse(s) :: c in s || c == ' '
    ensures forall c | c in s && !IsSpace(c) :: c in Collapse(s)
  {
    var t := SquashSpaces(s);
    var r := Strip(t);
    SquashChars(s);
    forall c | c in r ensures c in s || c == ' ' { StripKeeps(t, c); }
    forall c | c in s && !IsSpace(c) ensures c in r {
      StripKeepsOthers(t, c);
    }
  }

  /** Collapsing an already collapsed string changes nothing. */
  lemma CollapseOfCollapsed(s: string)
    requires IsCollapsed(s)
    ensures Collapse(s) == s
  {
    SquashOfSquashed(s);
  }

  lemma {:induction false} SquashOfSquashed(s: string)
    requires Squashed(s)
    ensures SquashSpaces(s) == s
    decreases |s|
  {
    if s == [] {
    } else if IsSpace(s[0]) {
      var t := DropSpaces(s);
      if |s| > 1 {
        assert !SpacePairAt(s, 1);
        assert !IsSpace(s[1]);
        assert DropSpaces(s[1..]) == s[1..];
        assert t == s[1..];
      } else {
        assert t == [];
      }
      SquashedSlice(s, 1, |s|);
      assert s[1..|s|] == s[1..];
      SquashOfSquashed(t);
    } else {
      SquashedSlice(s, 1, |s|);
      assert s[1..|s|] == s[1..];
      SquashOfSquashed(s[1..]);
    }
  }

  lemma CollapseIdempotent(s: string)
    ensures Collapse(Collapse(s)) == Collapse(s)
  {
    CollapseOfCollapsed(Collapse(s));
  }

  // ---------------------------------------------------------------------------
  // Joining and splitting
  // ---------------------------------------------------------------------------

  /** The first `n` elements of `s` (`s[:n]`). */
  function Take<T>(s: seq<T>, n: nat): (r: seq<T>)
    ensures |r| <= n && |r| <= |s|
    ensures |s| <= n ==> r == s
  {
    if |s| <= n then s else s[..n]
  }

  /** `sep.join(parts)`. */
  function Join(parts: seq<string>, sep: string): string
  {
    if parts == [] then []
    else if |parts| == 1 then parts[0]
    else parts[0] + sep + Join(parts[1..], sep)
  }

  /** Index of the first `c` in `s`, or |s|. */
  function IndexOf(s: string, c: char): (k: nat)
    ensures k <= |s|
    ensures k < |s| ==> s[k] == c
    ensures forall i | 0 <= i < k :: s[i] != c
  {
    if s == [] then 0 else if s[0] == c then 0 else 1 + IndexOf(s[1..], c)
  }

  /** `s.split(c)` for a one-character separator. */
  function SplitOn(s: string, c: char): (parts: seq<string>)
    decreases |s|
    ensures |parts| >= 1
    ensures forall p | p in parts :: c !in p
  {
    var k := IndexOf(s, c);
    if k == |s| then [s]
    else
      assert c !in s[..k];
      [s[..k]] + SplitOn(s[k + 1..], c)
  }

  /** Splitting on a character and joining with it is the identity. */
  lemma {:induction false} JoinSplitOn(s: string, c: char)
    ensures Join(SplitOn(s, c), [c]) == s
    decreases |s|
  {
    var k := IndexOf(s, c);
    if k < |s| {
      JoinSplitOn(s[k + 1..], c);
      assert SplitOn(s, c) == [s[..k]] + SplitOn(s[k + 1..], c);
      assert s == s[..k] + [c] + s[k + 1..];
    }
  }

  // ---------------------------------------------------------------------------
  // Newlines and HTML entities
  // ---------------------------------------------------------------------------

  /** `s.replace("\r\n", "\n").replace("\r", "\n")`. */
  function NormalizeNewlines(s: string): (r: string)
    decreases |s|
    ensures '\r' !in r
  {
    if s == [] then []
    else if s[0] == '\r' && |s| >= 2 && s[1] == '\n' then "\n" + NormalizeNewlines(s[2..])
    else if s[0] == '\r' then "\n" + NormalizeNewlines(s[1..])
    else [s[0]] + NormalizeNewlines(s[1..])
  }

  /** The HTML character references that the model decodes. */
  function Entities(): seq<(string, char)> { [("&amp;", '&'), ("&lt;", '<'), ("&gt;", '>'), ("&quot;", '"'), ("&#39;", '\'')] }

  /** Index of the entity spelled at the start of `s`, or |Entities()|. */
  function EntityIndex(s: string): (k: nat)
    ensures k <= |Entities()|
    ensures k < |Entities()| ==> StartsWith(s, Entities()[k].0)
  {
    if StartsWith(s, "&amp;") then 0
    else if StartsWith(s, "&lt;") then 1
    else if StartsWith(s, "&gt;") then 2
    else if StartsWith(s, "&quot;") then 3
    else if StartsWith(s, "&#39;") then 4
    else 5
  }

  /** `html.unescape`, restricted to the references in `Entities()`: every
      reference is replaced by its character in one left-to-right pass. */
  function Unescape(s: string): (r: string)
    decreases |s|
    ensures |r| <= |s|
    ensures '&' !in s ==> r == s
  {
    if s == [] then []
    else if s[0] == '&' && EntityIndex(s) < |Entities()| then
      var e := Entities()[EntityIndex(s)];
      [e.1] + Unescape(s[|e.0|..])
    else
      [s[0]] + Unescape(s[1..])
  }

  // ---------------------------------------------------------------------------
  // Records as dictionaries
  // ---------------------------------------------------------------------------

  /** `d.get(k, default)` on a dictionary of strings. */
  function GetOr(d: map<string, string>, k: string, default: string): (v: string)
    ensures k in d ==> v == d[k]
    ensures k !in d ==> v == default
  {
    if k in d then d[k] else default
  }

  /** `d.get(k, "")`, which is also `d.get(k) or ""` for a dictionary of strings. */
  function Get(d: map<string, string>, k: string): string
  {
    GetOr(d, k, "")
  }

  // ---------------------------------------------------------------------------
  // Decimal numerals
  // ---------------------------------------------------------------------------

  function DigitChar(d: nat): (c: char)
    requires d < 10
    ensures IsDigit(c)
  {
    ('0' as int + d) as char
  }

  /** `str(n)` for a natural number. */
  function NatToString(n: nat): (r: string)
    ensures |r| >= 1
    ensures forall i | 0 <= i < |r| :: IsDigit(r[i])
    ensures n < 10 <==> |r| == 1
  {
    if n < 10 then [DigitChar(n)] else NatToString(n / 10) + [DigitChar(n % 10)]
  }

  lemma {:induction false} NatToStringInjective(a: nat, b: nat)
    requires NatToString(a) == NatToString(b)
    ensures a == b
    decreases a
  {
    if a >= 10 && b >= 10 {
      var sa, sb := NatToString(a), NatToString(b);
      assert sa[|sa| - 1] == sb[|sb| - 1];
      assert a % 10 == b % 10;
      assert sa[..|sa| - 1] == NatToString(a / 10);
      assert sb[..|sb| - 1] == NatToString(b / 10);
      NatToStringInjective(a / 10, b / 10);
    }
  }

  /** The value of a string of ASCII digits. */
  function DigitsValue(s: string): nat
    requires forall i | 0 <= i < |s| :: IsDigit(s[i])
  {
    if s == [] then 0
    else
      assert IsDigit(s[|s| - 1]);
      DigitsValue(s[..|s| - 1]) * 10 + (s[|s| - 1] as int - '0' as int)
  }

  // ---------------------------------------------------------------------------
  // Code-point order on strings (Python's `<` on str)
  // ---------------------------------------------------------------------------

  predicate StrLess(a: string, b: string)
    decreases |a|
  {
    if a == [] then b != []
    else if b == [] then false
    else if a[0] != b[0] then a[0] < b[0]
    else StrLess(a[1..], b[1..])
  }

  lemma {:induction false} StrLessIrreflexive(a: string)
    ensures !StrLess(a, a)
    decreases |a|
  {
    if a != [] { StrLessIrreflexive(a[1..]); }
  }

  lemma {:induction false} StrLessTransitive(a: string, b: string, c: string)
    requires StrLess(a, b) && StrLess(b, c)
    ensures StrLess(a, c)
    decreases |a|
  {
    if a != [] && b != [] && c != [] && a[0] == b[0] && b[0] == c[0] {
      StrLessTransitive(a[1..], b[1..], c[1..]);
    }
  }

  lemma {:induction false} StrLessTotal(a: string, b: string)
    requires a != b
    ensures StrLess(a, b) || StrLess(b, a)
    decreases |a|
  {
    if a != [] && b != [] && a[0] == b[0] {
      assert a == [a[0]] + a[1..] && b == [b[0]] + b[1..];
      StrLessTotal(a[1..], b[1..]);
    }
  }

  predicate StrictlySorted(r: seq<string>) {
    forall i, j | 0 <= i < j < |r| :: StrLess(r[i], r[j])
  }

  /** Inserting `x` into a strictly increasing sequence, keeping it so. */
  function InsertDistinct(x: string, r: seq<string>): (t: seq<string>)
    requires StrictlySorted(r)
    ensures StrictlySorted(t)
    ensures forall y :: y in t <==> y == x || y in r
  {
    if r == [] then [x]
    else if x == r[0] then r
    else if StrLess(x, r[0]) then
      assert forall j | 0 <= j < |r| :: StrLess(x, r[j]) by {
        forall j | 0 <= j < |r| ensures StrLess(x, r[j]) {
          if j > 0 { StrLessTransitive(x, r[0], r[j]); }
        }
      }
      [x] + r
    else
      StrLessTotal(x, r[0]);
      var t' := InsertDistinct(x, r[1..]);
      assert forall y | y in t' :: StrLess(r[0], y) by {
        forall y | y in t' ensures StrLess(r[0], y) { if y != x { var j :| 0 <= j < |r[1..]| && r[1..][j] == y; } }
      }
      [r[0]] + t'
  }

  /** `sorted(set(xs))`: the distinct strings of `xs` in increasing order. */
  function SortDistinct(xs: seq<string>): (r: seq<string>)
    ensures StrictlySorted(r)
    ensures forall y :: y in r <==> y in xs
  {
    if xs == [] then [] else InsertDistinct(xs[|xs| - 1], SortDistinct(xs[..|xs| - 1]))
  }

  // ---------------------------------------------------------------------------
  // Mapping a function over a sequence
  // ---------------------------------------------------------------------------

  /** `f` applied to each element of `xs`, in order. */
  function MapSeq<A, B>(f: A -> B, xs: seq<A>): (ys: seq<B>)
    ensures |ys| == |xs|
  {
    seq(|xs|, k requires 0 <= k < |xs| => f(xs[k]))
  }

  lemma MapSeqAt<A, B>(f: A -> B, xs: seq<A>, k: nat)
    requires k < |xs|
    ensures MapSeq(f, xs)[k] == f(xs[k])
  {
  }

  lemma MapSeqConcat<A, B>(f: A -> B, xs: seq<A>, ys: seq<A>)
    ensures MapSeq(f, xs + ys) == MapSeq(f, xs) + MapSeq(f, ys)
  {
  }
}
