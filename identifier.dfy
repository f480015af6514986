/** Record codes: `slugify`, `build_code` and `ensure_available_code`
    (CODE/bib.py:192-206, 370-378). */
module Identifier {
  import opened Text

  // ---------------------------------------------------------------------------
  // Slugs
  // ---------------------------------------------------------------------------

  /** The characters of the class `[a-z0-9]`. */
  predicate IsSlugChar(c: char) { IsLowerChar(c) || IsDigit(c) }

  /** The characters at `i - 1` and `i` are both `_`. */
  predicate UnderscorePairAt(s: string, i: int) {
    1 <= i < |s| && s[i - 1] == '_' && s[i] == '_'
  }

  predicate NoDoubleUnderscore(s: string) {
    forall i | 1 <= i < |s| :: !UnderscorePairAt(s, i)
  }

  /** Every character is in `[a-z0-9_]`. */
  predicate SlugAlphabet(s: string) {
    forall i | 0 <= i < |s| :: IsSlugChar(s[i]) || s[i] == '_'
  }

  /** The shape of a slug: non-empty over `[a-z0-9_]`, no `_` at either end
      and no `__`. */
  predicate IsSlug(s: string) {
    s != [] && SlugAlphabet(s) && s[0] != '_' && s[|s| - 1] != '_' && NoDoubleUnderscore(s)
  }

  /** The `[a-z0-9]` characters of `s`, in order. */
  function SlugChars(s: string): string
    decreases |s|
  {
    if s == [] then [] else (if IsSlugChar(s[0]) then [s[0]] else []) + SlugChars(s[1..])
  }

  /** `s` without its leading run of characters outside `[a-z0-9]`. */
  function DropNonSlug(s: string): (r: string)
    decreases |s|
    ensures |r| <= |s|
    ensures r != [] ==> IsSlugChar(r[0])
    ensures s != [] && !IsSlugChar(s[0]) ==> |r| < |s|
    ensures SlugChars(r) == SlugChars(s)
  {
    if s != [] && !IsSlugChar(s[0]) then DropNonSlug(s[1..]) else s
  }

  /** `re.sub(r"[^a-z0-9]+", "_", s)`. */
  function SubNonSlug(s: string): (r: string)
    decreases |s|
    ensures SlugAlphabet(r) && NoDoubleUnderscore(r)
    ensures (r == []) == (s == [])
    ensures s != [] ==> (r[0] == '_' <==> !IsSlugChar(s[0]))
    ensures SlugChars(r) == SlugChars(s)
  {
    if s == [] then []
    else if IsSlugChar(s[0]) then
      var rest := SubNonSlug(s[1..]);
      UnderscoreCons(s[0], rest);
      [s[0]] + rest
    else
      var rest := SubNonSlug(DropNonSlug(s));
      UnderscoreCons('_', rest);
      "_" + rest
  }

  /** Putting `c` in front of a string without `__` keeps it so, unless both
      `c` and the old first character are `_`. */
  lemma UnderscoreCons(c: char, rest: string)
    requires NoDoubleUnderscore(rest)
    requires c == '_' && rest != [] ==> rest[0] != '_'
    ensures NoDoubleUnderscore([c] + rest)
  {
    var t := [c] + rest;
    forall i ensures !UnderscorePairAt(t, i) {
      if 2 <= i < |t| {
        assert t[i - 1] == rest[i - 2] && t[i] == rest[i - 1];
        assert !UnderscorePairAt(rest, i - 1);
      }
    }
  }

  /** `s` without its leading run of `_`. */
  function DropUnderscores(s: string): (r: string)
    decreases |s|
    ensures |r| <= |s|
    ensures r != [] ==> r[0] != '_'
    ensures s != [] && s[0] == '_' ==> |r| < |s|
  {
    if s != [] && s[0] == '_' then DropUnderscores(s[1..]) else s
  }

  /** `re.sub(r"_+", "_", s)`. */
  function SqueezeUnderscores(s: string): (r: string)
    decreases |s|
  {
    if s == [] then []
    else if s[0] != '_' then [s[0]] + SqueezeUnderscores(s[1..])
    else "_" + SqueezeUnderscores(DropUnderscores(s))
  }

  /** The part of `slugify` after the first substitution. */
  function FinishSlug(v: string, maxLen: nat): string
  {
    var t := StripChars(SqueezeUnderscores(v), {'_'});
    if t == [] then "untitled" else RStripChars(Take(t, maxLen), {'_'})
  }

  /** `slugify(value, max_len)`. */
  function Slugify(value: string, maxLen: nat): string
  {
    FinishSlug(SubNonSlug(Lower(Strip(value))), maxLen)
  }

  /** Some ASCII letter or digit occurs in `s`. */
  predicate HasAlnum(s: string) {
    exists i | 0 <= i < |s| :: IsAlnum(s[i])
  }

  /** `re.sub(r"_+", "_", s)` changes nothing once there is no `__`. */
  lemma {:induction false} SqueezeOfNoDouble(s: string)
    requires NoDoubleUnderscore(s)
    ensures SqueezeUnderscores(s) == s
    decreases |s|
  {
    if s != [] {
      var rest := s[1..];
      assert NoDoubleUnderscore(rest) by {
        forall i ensures !UnderscorePairAt(rest, i) {
          if 1 <= i < |rest| {
            assert rest[i - 1] == s[i] && rest[i] == s[i + 1];
            assert !UnderscorePairAt(s, i + 1);
          }
        }
      }
      if s[0] == '_' {
        assert !UnderscorePairAt(s, 1);
        assert rest == [] || rest[0] != '_';
        assert DropUnderscores(s) == DropUnderscores(rest) == rest;
      }
      SqueezeOfNoDouble(rest);
    }
  }

  /** `re.sub(r"[^a-z0-9]+", "_", s)` changes nothing on a string over
      `[a-z0-9_]` without `__`. */
  lemma {:induction false} SubNonSlugOfSlugAlphabet(s: string)
    requires SlugAlphabet(s) && NoDoubleUnderscore(s)
    ensures SubNonSlug(s) == s
    decreases |s|
  {
    if s != [] {
      var rest := s[1..];
      assert SlugAlphabet(rest) && NoDoubleUnderscore(rest) by {
        forall i | 0 <= i < |rest| ensures IsSlugChar(rest[i]) || rest[i] == '_' {
          assert rest[i] == s[i + 1];
        }
        forall i ensures !UnderscorePairAt(rest, i) {
          if 1 <= i < |rest| {
            assert rest[i - 1] == s[i] && rest[i] == s[i + 1];
            assert !UnderscorePairAt(s, i + 1);
          }
        }
      }
      if !IsSlugChar(s[0]) {
        assert !UnderscorePairAt(s, 1);
        assert rest == [] || IsSlugChar(rest[0]);
        assert DropNonSlug(s) == DropNonSlug(rest) == rest;
      }
      SubNonSlugOfSlugAlphabet(rest);
    }
  }

  /** The characters of a slice over `[a-z0-9_]` stay in the alphabet, and
      a slice of a string without `__` has none either. */
  lemma SliceKeepsSlugAlphabet(s: string, a: nat, b: nat)
    requires a <= b <= |s| && SlugAlphabet(s) && NoDoubleUnderscore(s)
    ensures SlugAlphabet(s[a..b]) && NoDoubleUnderscore(s[a..b])
  {
    var t := s[a..b];
    forall i | 0 <= i < |t| ensures IsSlugChar(t[i]) || t[i] == '_' {
      assert t[i] == s[a + i];
    }
    forall i ensures !UnderscorePairAt(t, i) {
      if 1 <= i < |t| {
        assert t[i - 1] == s[a + i - 1] && t[i] == s[a + i];
        assert !UnderscorePairAt(s, a + i);
      }
    }
  }

  /** `SlugChars` distributes over concatenation. */
  lemma {:induction false} SlugCharsAppend(a: string, b: string)
    ensures SlugChars(a + b) == SlugChars(a) + SlugChars(b)
    decreases |a|
  {
    if a == [] {
      assert a + b == b;
    } else {
      var x := if IsSlugChar(a[0]) then [a[0]] else [];
      assert (a + b)[0] == a[0];
      assert (a + b)[1..] == a[1..] + b;
      SlugCharsAppend(a[1..], b);
      calc {
        SlugChars(a + b);
        x + SlugChars(a[1..] + b);
        x + (SlugChars(a[1..]) + SlugChars(b));
        (x + SlugChars(a[1..])) + SlugChars(b);
      }
    }
  }

  /** A string without `[a-z0-9]` characters contributes nothing. */
  lemma {:induction false} SlugCharsNone(s: string)
    requires forall i | 0 <= i < |s| :: !IsSlugChar(s[i])
    ensures SlugChars(s) == []
    decreases |s|
  {
    if s != [] {
      SlugCharsNone(s[1..]);
    }
  }

  /** A string over `[a-z0-9]` is its own `SlugChars`. */
  lemma {:induction false} SlugCharsAll(s: string)
    requires forall i | 0 <= i < |s| :: IsSlugChar(s[i])
    ensures SlugChars(s) == s
    decreases |s|
  {
    if s != [] {
      SlugCharsAll(s[1..]);
      assert [s[0]] + s[1..] == s;
    }
  }

  /** Dropping a prefix without `[a-z0-9]` characters keeps them all. */
  lemma {:induction false} SlugCharsDropPrefix(v: string, a: nat)
    requires a <= |v|
    requires forall i | 0 <= i < a :: !IsSlugChar(v[i])
    ensures SlugChars(v[a..]) == SlugChars(v)
    decreases a
  {
    if a > 0 {
      var t := v[1..];
      assert forall i | 0 <= i < a - 1 :: t[i] == v[i + 1];
      SlugCharsDropPrefix(t, a - 1);
      assert t[a - 1..] == v[a..];
    }
  }

  /** Dropping a suffix without `[a-z0-9]` characters keeps them all. */
  lemma SlugCharsDropSuffix(w: string, b: nat)
    requires b <= |w|
    requires forall i | b <= i < |w| :: !IsSlugChar(w[i])
    ensures SlugChars(w[..b]) == SlugChars(w)
  {
    var post := w[b..];
    assert forall i | 0 <= i < |post| :: post[i] == w[b + i];
    SlugCharsNone(post);
    assert w == w[..b] + post;
    SlugCharsAppend(w[..b], post);
  }

  /** A slice that leaves out only characters outside `[a-z0-9]` keeps all
      of them. */
  lemma SlugCharsOfSlice(v: string, a: nat, b: nat)
    requires a <= b <= |v|
    requires forall i | 0 <= i < a :: !IsSlugChar(v[i])
    requires forall i | b <= i < |v| :: !IsSlugChar(v[i])
    ensures SlugChars(v[a..b]) == SlugChars(v)
  {
    var u := v[..b];
    assert SlugChars(u) == SlugChars(v) by {
      SlugCharsDropSuffix(v, b);
    }
    assert SlugChars(u[a..]) == SlugChars(u) by {
      assert forall i | 0 <= i < a :: u[i] == v[i];
      SlugCharsDropPrefix(u, a);
    }
    assert u[a..] == v[a..b];
  }

  /** `s.strip("_")` on a string over `[a-z0-9_]` without `__` keeps the
      alphabet, the letters and digits, and leaves no `_` at either end. */
  lemma StripUnderscoreFacts(v: string)
    requires SlugAlphabet(v) && NoDoubleUnderscore(v)
    ensures var t := StripChars(v, {'_'});
      && SlugAlphabet(t) && NoDoubleUnderscore(t) && SlugChars(t) == SlugChars(v)
      && (t != [] ==> t[0] != '_' && t[|t| - 1] != '_')
  {
    var t := StripChars(v, {'_'});
    var a := StripStart(v, {'_'});
    SliceKeepsSlugAlphabet(v, a, a + |t|);
    SlugCharsOfSlice(v, a, a + |t|);
  }

  /** `t[:max_len].rstrip("_")` of a non-empty string without `_` at its
      ends is a slug that fits, and `t` itself when `t` fits. */
  lemma TakeSlugFacts(t: string, maxLen: nat)
    requires t != [] && SlugAlphabet(t) && NoDoubleUnderscore(t) && maxLen >= 1
    requires t[0] != '_' && t[|t| - 1] != '_'
    ensures var r := RStripChars(Take(t, maxLen), {'_'});
      && IsSlug(r) && |r| <= maxLen
      && (|t| <= maxLen ==> r == t)
  {
    var p := Take(t, maxLen);
    assert p == t[..|p|];
    SliceKeepsSlugAlphabet(t, 0, |p|);
    var r := RStripChars(p, {'_'});
    RStripPrefix(p, {'_'});
    assert p[0] == t[0];
    SliceKeepsSlugAlphabet(p, 0, |r|);
    if |t| <= maxLen {
      assert p == t;
    }
  }

  /** What the finishing stages of `slugify` produce from the output of the
      first substitution: `"untitled"` when it has no `[a-z0-9]` character,
      and otherwise a slug of at most `maxLen` characters. */
  lemma FinishSlugShape(v: string, maxLen: nat)
    requires SlugAlphabet(v) && NoDoubleUnderscore(v) && maxLen >= 1
    ensures var r := FinishSlug(v, maxLen);
      && IsSlug(r)
      && (SlugChars(v) == [] ==> r == "untitled")
      && (SlugChars(v) != [] ==> |r| <= maxLen)
  {
    SqueezeOfNoDouble(v);
    var t := StripChars(v, {'_'});
    StripUnderscoreFacts(v);
    if t == [] {
      UntitledIsSlug();
    } else {
      TakeSlugFacts(t, maxLen);
      assert SlugChars(t) != [] by {
        assert IsSlugChar(t[0]);
      }
    }
  }

  lemma UntitledIsSlug()
    ensures IsSlug("untitled")
  {
    var u := "untitled";
    assert forall i | 0 <= i < |u| :: IsSlugChar(u[i]);
  }

  /** When the underscore-stripped input fits in `maxLen`, the finishing
      stages keep every letter and digit. */
  lemma FinishSlugKeeps(v: string, maxLen: nat)
    requires SlugAlphabet(v) && NoDoubleUnderscore(v) && maxLen >= 1
    requires SlugChars(v) != [] && |StripChars(v, {'_'})| <= maxLen
    ensures SlugChars(FinishSlug(v, maxLen)) == SlugChars(v)
  {
    SqueezeOfNoDouble(v);
    var t := StripChars(v, {'_'});
    StripUnderscoreFacts(v);
    assert t != [];
    TakeSlugFacts(t, maxLen);
  }

  /** `slugify` returns `"untitled"` when no ASCII letter or digit occurs in
      its input, and otherwise a slug of at most `max_len` characters. */
  lemma SlugifyFacts(value: string, maxLen: nat)
    requires maxLen >= 1
    ensures var r := Slugify(value, maxLen);
      && IsSlug(r)
      && (!HasAlnum(value) ==> r == "untitled")
      && (HasAlnum(value) ==> |r| <= maxLen)
  {
    var v := SubNonSlug(Lower(Strip(value)));
    FinishSlugShape(v, maxLen);
    SlugCharsOfLowerStrip(value);
  }

  /** A title whose substituted form fits in `max_len` loses none of its
      letters and digits: the slug holds exactly the lower-cased letters and
      digits of the input, in order. */
  lemma SlugifyKeeps(value: string, maxLen: nat)
    requires maxLen >= 1 && HasAlnum(value)
    requires |SubNonSlug(Lower(Strip(value)))| <= maxLen
    ensures SlugChars(Slugify(value, maxLen)) == SlugChars(Lower(value))
  {
    var v := SubNonSlug(Lower(Strip(value)));
    SlugCharsOfLowerStrip(value);
    FinishSlugKeeps(v, maxLen);
  }

  lemma LowerAppend(x: string, y: string)
    ensures Lower(x + y) == Lower(x) + Lower(y)
  {
    assert forall i | 0 <= i < |x + y| :: Lower(x + y)[i] == (Lower(x) + Lower(y))[i];
  }

  /** A whitespace character contributes nothing to a slug. */
  lemma SlugCharsOfSpace(c: char)
    requires IsSpace(c)
    ensures SlugChars(Lower([c])) == []
  {
    SlugCharsNone(Lower([c]));
  }

  lemma {:induction false} SlugCharsOfLStrip(s: string)
    ensures SlugChars(Lower(LStripSpace(s))) == SlugChars(Lower(s))
    decreases |s|
  {
    if s != [] && IsSpace(s[0]) {
      assert [s[0]] + s[1..] == s;
      LowerAppend([s[0]], s[1..]);
      SlugCharsAppend(Lower([s[0]]), Lower(s[1..]));
      SlugCharsOfSpace(s[0]);
      SlugCharsOfLStrip(s[1..]);
    }
  }

  lemma {:induction false} SlugCharsOfRStrip(s: string)
    ensures SlugChars(Lower(RStripSpace(s))) == SlugChars(Lower(s))
    decreases |s|
  {
    if s != [] && IsSpace(s[|s| - 1]) {
      var init := s[..|s| - 1];
      assert init + [s[|s| - 1]] == s;
      LowerAppend(init, [s[|s| - 1]]);
      SlugCharsAppend(Lower(init), Lower([s[|s| - 1]]));
      SlugCharsOfSpace(s[|s| - 1]);
      SlugCharsOfRStrip(init);
    }
  }

  /** Stripping whitespace and lower-casing keep the letters and digits,
      lower-cased, and nothing else of `[a-z0-9]`. */
  lemma SlugCharsOfLowerStrip(value: string)
    ensures SlugChars(Lower(Strip(value))) == SlugChars(Lower(value))
    ensures SlugChars(Lower(value)) == [] <==> !HasAlnum(value)
  {
    SlugCharsOfLStrip(value);
    SlugCharsOfRStrip(LStripSpace(value));
    SlugCharsOfLower(value);
  }

  lemma {:induction false} SlugCharsOfLower(s: string)
    ensures SlugChars(Lower(s)) == [] <==> !HasAlnum(s)
    decreases |s|
  {
    if s != [] {
      var l := Lower(s);
      assert l[0] == LowerChar(s[0]) && l[1..] == Lower(s[1..]);
      SlugCharsOfLower(s[1..]);
      assert IsSlugChar(LowerChar(s[0])) <==> IsAlnum(s[0]);
      HasAlnumCons(s);
    }
  }

  lemma HasAlnumCons(s: string)
    requires s != []
    ensures HasAlnum(s) <==> IsAlnum(s[0]) || HasAlnum(s[1..])
  {
    if HasAlnum(s) && !IsAlnum(s[0]) {
      var i :| 0 <= i < |s| && IsAlnum(s[i]);
      assert s[1..][i - 1] == s[i];
    }
    if HasAlnum(s[1..]) {
      var i :| 0 <= i < |s[1..]| && IsAlnum(s[1..][i]);
      assert s[i + 1] == s[1..][i];
    }
  }


  /** A slug that fits is its own slug, so `slugify` is idempotent once the
      limit leaves room for `"untitled"`. */
  lemma SlugifyOfSlug(s: string, maxLen: nat)
    requires IsSlug(s) && |s| <= maxLen
    ensures Slugify(s, maxLen) == s
  {
    SlugPrepared(s);
    SlugFinished(s, maxLen);
  }

  /** Stripping, lower-casing and replacing non-slug runs leave a slug alone. */
  lemma SlugPrepared(s: string)
    requires IsSlug(s)
    ensures SubNonSlug(Lower(Strip(s))) == s
  {
    assert Strip(s) == s by {
      StripFacts(s);
      assert !IsSpace(s[0]) && !IsSpace(s[|s| - 1]);
    }
    assert Lower(s) == s by {
      assert forall i | 0 <= i < |s| :: LowerChar(s[i]) == s[i];
    }
    SubNonSlugOfSlugAlphabet(s);
  }

  /** Squeezing, stripping `_` and truncating leave a fitting slug alone. */
  lemma SlugFinished(s: string, maxLen: nat)
    requires IsSlug(s) && |s| <= maxLen
    ensures FinishSlug(s, maxLen) == s
  {
    assert SqueezeUnderscores(s) == s by { SqueezeOfNoDouble(s); }
    assert StripChars(s, {'_'}) == s;
    assert Take(s, maxLen) == s;
    assert RStripChars(s, {'_'}) == s;
  }

  /** A slug written with spaces for its underscores slugifies back to
      the slug: a file stem read as a title gives the stem again. */
  lemma SlugifySpaced(s: string, t: string, maxLen: nat)
    requires IsSlug(t) && |t| <= maxLen && |s| == |t|
    requires forall k | 0 <= k < |t| :: s[k] == (if t[k] == '_' then ' ' else t[k])
    ensures Slugify(s, maxLen) == t
  {
    StripUnchanged(s);
    assert Lower(s) == s by {
      assert forall i | 0 <= i < |s| :: LowerChar(s[i]) == s[i];
    }
    SubNonSlugSpaced(s, t);
    SlugFinished(t, maxLen);
  }

  /** Each space between the slug characters becomes one `_`. */
  lemma {:induction false} SubNonSlugSpaced(s: string, t: string)
    requires |s| == |t| && SlugAlphabet(t) && NoDoubleUnderscore(t) && (t != [] ==> t[|t| - 1] != '_')
    requires forall k | 0 <= k < |t| :: s[k] == (if t[k] == '_' then ' ' else t[k])
    ensures SubNonSlug(s) == t
    decreases |s|
  {
    if s != [] {
      var t' := t[1..];
      assert SlugAlphabet(t') && NoDoubleUnderscore(t') by {
        forall i | 0 <= i < |t'| ensures IsSlugChar(t'[i]) || t'[i] == '_' {
          assert t'[i] == t[i + 1];
        }
        forall i ensures !UnderscorePairAt(t', i) {
          if 1 <= i < |t'| {
            assert t'[i - 1] == t[i] && t'[i] == t[i + 1];
            assert !UnderscorePairAt(t, i + 1);
          }
        }
      }
      if t[0] == '_' {
        assert !UnderscorePairAt(t, 1);
        assert IsSlugChar(s[1]);
        assert DropNonSlug(s) == DropNonSlug(s[1..]) == s[1..];
      }
      SubNonSlugSpaced(s[1..], t');
      assert t == [t[0]] + t';
    }
  }

  lemma SlugifyIdempotent(value: string, maxLen: nat)
    requires maxLen >= 8
    ensures Slugify(Slugify(value, maxLen), maxLen) == Slugify(value, maxLen)
  {
    SlugifyFacts(value, maxLen);
    SlugifyOfSlug(Slugify(value, maxLen), maxLen);
  }

  // ---------------------------------------------------------------------------
  // build_code (CODE/bib.py:201-206)
  // ---------------------------------------------------------------------------

  /** `YEAR_RE.match(s)` for `^\d{4}$`: four digits, where `$` also accepts
      one final newline. */
  predicate MatchesYear(s: string) {
    (|s| == 4 || (|s| == 5 && s[4] == '\n')) && forall i | 0 <= i < 4 :: IsDigit(s[i])
  }

  /** The year part of a code. */
  function SafeYear(year: string): string
  {
    var y := Strip(year);
    if MatchesYear(y) then y else "0000"
  }

  /** `build_code(year, doc_type, title)`. */
  function BuildCode(year: string, docType: string, title: string): string
  {
    var t := Strip(docType);
    SafeYear(year) + "_" + Slugify(if t == [] then "article" else t, 20) + "_"
      + Slugify(if title == [] then "untitled" else title, 60)
  }

  /** The year part is the stripped year when that is exactly four digits
      and `"0000"` otherwise. */
  lemma SafeYearFacts(year: string)
    ensures var y := SafeYear(year);
      |y| == 4 && (forall i | 0 <= i < 4 :: IsDigit(y[i]))
      && (y == Strip(year) <==> |Strip(year)| == 4 && forall i | 0 <= i < 4 :: IsDigit(Strip(year)[i]))
  {
    var s := Strip(year);
    StripFacts(year);
    if s != "0000" {
      assert s == SafeYear(year) ==> MatchesYear(s);
    }
  }

  /** A code is put together from the year, type and title parts. */
  lemma BuildCodeOfParts(year: string, docType: string, title: string, y: string, t: string, u: string)
    requires SafeYear(year) == y && Strip(docType) != [] && Slugify(Strip(docType), 20) == t
    requires title != [] && Slugify(title, 60) == u
    ensures BuildCode(year, docType, title) == y + "_" + t + "_" + u
  {
  }

  /** Two slugs joined by `_` make a slug. */
  lemma JoinSlugs(a: string, b: string)
    requires IsSlug(a) && IsSlug(b)
    ensures var c := a + "_" + b;
      && IsSlug(c) && |c| == |a| + 1 + |b| && c[..|a|] == a && c[|a|] == '_'
  {
    var c := a + "_" + b;
    forall i | 0 <= i < |c| ensures IsSlugChar(c[i]) || c[i] == '_' {
      if i < |a| { assert c[i] == a[i]; }
      else if i > |a| { assert c[i] == b[i - |a| - 1]; }
    }
    forall i ensures !UnderscorePairAt(c, i) {
      if 1 <= i < |c| {
        if i < |a| { assert c[i - 1] == a[i - 1] && c[i] == a[i]; assert !UnderscorePairAt(a, i); }
        else if i == |a| { assert c[i - 1] == a[|a| - 1]; }
        else if i == |a| + 1 { assert c[i] == b[0]; }
        else { assert c[i - 1] == b[i - |a| - 2] && c[i] == b[i - |a| - 1]; assert !UnderscorePairAt(b, i - |a| - 1); }
      }
    }
    assert c[|c| - 1] == b[|b| - 1];
    assert c[..|a|] == a;
  }

  /** The year part of a code is a slug of four digits. */
  lemma SafeYearIsSlug(year: string)
    ensures IsSlug(SafeYear(year)) && |SafeYear(year)| == 4
  {
    var y := SafeYear(year);
    SafeYearFacts(year);
    assert forall i | 0 <= i < |y| :: IsSlugChar(y[i]);
  }

  /** A code is `{year}_{type}_{slug}`: the four-digit year part, `_`, then
      two slugs joined by `_`. It is a slug itself, of at most 86 characters. */
  lemma BuildCodeFacts(year: string, docType: string, title: string)
    ensures var c := BuildCode(year, docType, title);
      && 4 < |c| <= 86 && c[..4] == SafeYear(year) && c[4] == '_'
      && IsSlug(c)
  {
    var y := SafeYear(year);
    var t := Strip(docType);
    var ty := Slugify(if t == [] then "article" else t, 20);
    var sl := Slugify(if title == [] then "untitled" else title, 60);
    assert IsSlug(y) && |y| == 4 by { SafeYearIsSlug(year); }
    assert IsSlug(ty) && |ty| <= 20 by {
      SlugifyFacts(if t == [] then "article" else t, 20);
    }
    assert IsSlug(sl) && |sl| <= 60 by {
      SlugifyFacts(if title == [] then "untitled" else title, 60);
    }
    var x := y + "_" + ty;
    assert IsSlug(x) && |x| == |y| + 1 + |ty| && x[..4] == y && x[4] == '_' by { JoinSlugs(y, ty); }
    var c := x + "_" + sl;
    assert IsSlug(c) && |c| == |x| + 1 + |sl| && c[..|x|] == x by { JoinSlugs(x, sl); }
    assert c == BuildCode(year, docType, title);
    assert forall i | 0 <= i < |x| :: c[i] == x[i] by {
      forall i | 0 <= i < |x| ensures c[i] == x[i] {
        assert c[..|x|][i] == c[i];
      }
    }
    assert forall i | 0 <= i < 4 :: c[i] == y[i] by {
      forall i | 0 <= i < 4 ensures c[i] == y[i] {
        assert x[..4][i] == x[i];
      }
    }
    assert c[..4] == y;
  }

  // ---------------------------------------------------------------------------
  // ensure_available_code (CODE/bib.py:370-378)
  // ---------------------------------------------------------------------------

  /** The `n`-th name tried: `base`, then `base_2`, `base_3`, ... */
  function Probe(base: string, n: nat): string
  {
    if n <= 1 then base else base + "_" + NatToString(n)
  }

  /** A name is free for a document when no file has it or the file with it
      is the document itself. */
  predicate Free(name: string, occupied: set<string>, own: string) {
    name !in occupied || name == own
  }

  /** Different probe numbers give different names. */
  lemma ProbeInjective(base: string, m: nat, n: nat)
    requires 1 <= m < n
    ensures Probe(base, m) != Probe(base, n)
  {
    if m >= 2 {
      var pm, pn := Probe(base, m), Probe(base, n);
      if pm == pn {
        assert pm[|base| + 1..] == NatToString(m);
        assert pn[|base| + 1..] == NatToString(n);
        NatToStringInjective(m, n);
      }
    }
  }

  /** The names tried before the `n`-th. */
  function ProbesBelow(base: string, n: nat): set<string>
  {
    if n <= 1 then {} else ProbesBelow(base, n - 1) + {Probe(base, n - 1)}
  }

  lemma {:induction false} ProbeIsNew(base: string, n: nat)
    requires n >= 1
    ensures Probe(base, n) !in ProbesBelow(base, n)
    ensures forall k | 1 <= k < n :: Probe(base, k) in ProbesBelow(base, n)
  {
    if n > 1 {
      ProbeIsNew(base, n - 1);
      ProbesBelowAreEarlier(base, n);
      if Probe(base, n) in ProbesBelow(base, n) {
        var k :| 1 <= k < n && Probe(base, k) == Probe(base, n);
        ProbeInjective(base, k, n);
      }
    }
  }

  lemma {:induction false} ProbesBelowAreEarlier(base: string, n: nat)
    ensures forall x | x in ProbesBelow(base, n) :: exists k | 1 <= k < n :: x == Probe(base, k)
  {
    if n > 1 {
      ProbesBelowAreEarlier(base, n - 1);
    }
  }

  /** The first free name among the probes from number `n` on, when every
      probe before `n` is taken. The search ends because each probe taken
      is a different member of the finite set `occupied`. */
  function FirstFreeFrom(base: string, occupied: set<string>, own: string, n: nat): string
    requires n >= 1 && ProbesBelow(base, n) <= occupied
    decreases |occupied - ProbesBelow(base, n)|
  {
    if Free(Probe(base, n), occupied, own) then Probe(base, n)
    else
      ProbeIsNew(base, n);
      assert occupied - ProbesBelow(base, n + 1) < occupied - ProbesBelow(base, n) by {
        assert Probe(base, n) in occupied - ProbesBelow(base, n);
      }
      FirstFreeFrom(base, occupied, own, n + 1)
  }

  /** The search from probe `n` on ends at a free probe, with every probe
      it passes over taken. */
  lemma {:induction false} FirstFreeFromFacts(base: string, occupied: set<string>, own: string, n: nat)
    requires n >= 1 && ProbesBelow(base, n) <= occupied
    decreases |occupied - ProbesBelow(base, n)|
    ensures Free(FirstFreeFrom(base, occupied, own, n), occupied, own)
    ensures exists m | m >= n :: FirstFreeFrom(base, occupied, own, n) == Probe(base, m) && TakenBetween(base, occupied, own, n, m)
  {
    var c := FirstFreeFrom(base, occupied, own, n);
    if Free(Probe(base, n), occupied, own) {
      assert c == Probe(base, n) && TakenBetween(base, occupied, own, n, n);
    } else {
      FirstFreeFromNext(base, occupied, own, n);
      FirstFreeFromFacts(base, occupied, own, n + 1);
      var m :| m >= n + 1 && c == Probe(base, m) && TakenBetween(base, occupied, own, n + 1, m);
      assert TakenBetween(base, occupied, own, n, m);
    }
  }

  /** Every probe from number `n` up to, not including, number `m` is taken. */
  predicate TakenBetween(base: string, occupied: set<string>, own: string, n: nat, m: nat) {
    forall k | n <= k < m :: !Free(Probe(base, k), occupied, own)
  }

  /** `ensure_available_code(base, path)` as a specification: the first
      probe that no other file holds. */
  function FirstFree(base: string, occupied: set<string>, own: string): string
  {
    FirstFreeFrom(base, occupied, own, 1)
  }

  /** The first free probe is free, and every probe before it is taken. */
  lemma FirstFreeFacts(base: string, occupied: set<string>, own: string)
    ensures var c := FirstFree(base, occupied, own);
      && Free(c, occupied, own)
      && exists n | n >= 1 :: c == Probe(base, n) && forall k | 1 <= k < n :: !Free(Probe(base, k), occupied, own)
  {
    FirstFreeFromFacts(base, occupied, own, 1);
    var n :| n >= 1 && FirstFree(base, occupied, own) == Probe(base, n) && TakenBetween(base, occupied, own, 1, n);
  }

  /** The base name itself is kept when it is free. */
  lemma FirstFreeKeepsFreeBase(base: string, occupied: set<string>, own: string)
    requires Free(base, occupied, own)
    ensures FirstFree(base, occupied, own) == base
  {
  }

  /** Every probe up to the first free one is taken, so that one is found
      whatever order the search is described in: a free probe with every
      earlier probe taken is the first free probe. */
  lemma {:induction false} FirstFreeIsFirst(base: string, occupied: set<string>, own: string, n: nat)
    requires n >= 1 && Free(Probe(base, n), occupied, own)
    requires forall k | 1 <= k < n :: !Free(Probe(base, k), occupied, own)
    ensures FirstFree(base, occupied, own) == Probe(base, n)
  {
    FirstFreeFacts(base, occupied, own);
    var c := FirstFree(base, occupied, own);
    var m :| m >= 1 && c == Probe(base, m) && forall k | 1 <= k < m :: !Free(Probe(base, k), occupied, own);
  }

  /** One step of the search: a taken probe is passed over. */
  lemma FirstFreeFromNext(base: string, occupied: set<string>, own: string, n: nat)
    requires n >= 1 && ProbesBelow(base, n) <= occupied && !Free(Probe(base, n), occupied, own)
    ensures ProbesBelow(base, n + 1) <= occupied
    ensures |occupied - ProbesBelow(base, n + 1)| < |occupied - ProbesBelow(base, n)|
    ensures FirstFreeFrom(base, occupied, own, n + 1) == FirstFreeFrom(base, occupied, own, n)
  {
    ProbeIsNew(base, n);
    assert occupied - ProbesBelow(base, n + 1) < occupied - ProbesBelow(base, n) by {
      assert Probe(base, n) in occupied - ProbesBelow(base, n);
    }
  }

  /** `ensure_available_code`: the first probe that is free. The names are
      the stems of the files in the library directory, `own` the stem of
      the document being placed. */
  method EnsureAvailableCode(base: string, occupied: set<string>, own: string) returns (code: string)
    ensures code == FirstFree(base, occupied, own)
  {
    code := base;
    var suffix := 2;
    while !(code !in occupied || code == own)
      invariant suffix >= 2 && code == Probe(base, suffix - 1)
      invariant ProbesBelow(base, suffix - 1) <= occupied
      invariant FirstFreeFrom(base, occupied, own, suffix - 1) == FirstFree(base, occupied, own)
      decreases |occupied - ProbesBelow(base, suffix - 1)|
    {
      FirstFreeFromNext(base, occupied, own, suffix - 1);
      code := base + "_" + NatToString(suffix);
      suffix := suffix + 1;
    }
  }
}
