/** Personal tags: the `my_keywords` configuration, the tags suggested for a
    text, and the reading of a comma-separated tag list
    (CODE/bib.py:105-134). */
module Keywords {
  import opened Text

  // ---------------------------------------------------------------------------
  // normalize_keyword_config (CODE/bib.py:105-116)
  // ---------------------------------------------------------------------------

  /** One entry of the configuration's `my_keywords` list: a bare string, or
      an object with a `tag` and a list of `terms` (a missing `tag` reads as
      the empty string and missing `terms` as the empty list). */
  datatype KeywordEntry = Plain(word: string) | Tagged(tag: string, terms: seq<string>)

  /** A normalised rule: `tag` is suggested when any of `terms` occurs. */
  datatype Rule = Rule(tag: string, terms: seq<string>)

  /** A bare string is always kept; an object only with a tag and terms. */
  predicate Admitted(e: KeywordEntry) {
    e.Plain? || (e.tag != [] && e.terms != [])
  }

  function RuleOf(e: KeywordEntry): (r: Rule)
    requires Admitted(e)
    ensures r.terms != []
  {
    match e
    case Plain(w) => Rule(w, [w])
    case Tagged(tag, terms) => Rule(tag, terms)
  }

  /** The rules of a configuration list, in order. Every admitted entry
      gives one rule and every rule comes from an admitted entry. */
  function NormalizedRules(raw: seq<KeywordEntry>): (rules: seq<Rule>)
    ensures |rules| <= |raw|
    ensures forall e | e in raw && Admitted(e) :: RuleOf(e) in rules
    ensures forall r | r in rules :: r.terms != [] && exists e | e in raw && Admitted(e) :: r == RuleOf(e)
  {
    if raw == [] then []
    else
      var init := NormalizedRules(raw[..|raw| - 1]);
      var e := raw[|raw| - 1];
      assert raw == raw[..|raw| - 1] + [e];
      init + if Admitted(e) then [RuleOf(e)] else []
  }

  /** `normalize_keyword_config`: the loop over the configuration list. */
  method NormalizeKeywordConfig(raw: seq<KeywordEntry>) returns (rules: seq<Rule>)
    ensures rules == NormalizedRules(raw)
  {
    rules := [];
    var i := 0;
    while i < |raw|
      invariant i <= |raw|
      invariant rules == NormalizedRules(raw[..i])
    {
      var e := raw[i];
      assert raw[..i + 1][..i] == raw[..i];
      if e.Plain? {
        rules := rules + [Rule(e.word, [e.word])];
      } else if e.tag != [] && e.terms != [] {
        rules := rules + [Rule(e.tag, e.terms)];
      }
      i := i + 1;
    }
    assert raw[..i] == raw;
  }

  // ---------------------------------------------------------------------------
  // suggest_my_keywords (CODE/bib.py:119-127)
  // ---------------------------------------------------------------------------

  /** Some term of the rule, lowercased, occurs in the lowercased text. */
  predicate RuleMatches(r: Rule, textLower: string) {
    exists k | 0 <= k < |r.terms| :: Contains(textLower, Lower(r.terms[k]))
  }

  /** The tags of the matching rules, in rule order. */
  function MatchedTags(rules: seq<Rule>, textLower: string): (tags: seq<string>)
    ensures forall t :: t in tags <==> exists r | r in rules :: RuleMatches(r, textLower) && r.tag == t
  {
    if rules == [] then []
    else
      var init := MatchedTags(rules[..|rules| - 1], textLower);
      var r := rules[|rules| - 1];
      assert rules == rules[..|rules| - 1] + [r];
      init + if RuleMatches(r, textLower) then [r.tag] else []
  }

  /** Every tag is the empty string. */
  predicate OnlyEmptyTags(tags: seq<string>) {
    forall t | t in tags :: t == []
  }

  /** What `suggest_my_keywords` returns: the distinct matched tags, sorted
      and joined by ", " — empty exactly when the text is empty or no
      non-empty tag matched. */
  function Suggestion(text: string, config: seq<KeywordEntry>): (r: string)
    ensures text == [] ==> r == []
    ensures r == [] <==> text == [] || OnlyEmptyTags(MatchedTags(NormalizedRules(config), Lower(text)))
  {
    if text == [] then []
    else
      var matched := MatchedTags(NormalizedRules(config), Lower(text));
      var tags := SortDistinct(matched);
      JoinedTagsEmpty(matched);
      Join(tags, ", ")
  }

  /** The joined sorted tags are empty exactly when every tag is empty. */
  lemma JoinedTagsEmpty(matched: seq<string>)
    ensures Join(SortDistinct(matched), ", ") == [] <==> OnlyEmptyTags(matched)
  {
    var tags := SortDistinct(matched);
    JoinSortedEmpty(tags);
    if forall i | 0 <= i < |tags| :: tags[i] == [] {
      forall t | t in matched ensures t == [] {
        var i :| 0 <= i < |tags| && tags[i] == t;
      }
    } else {
      var i :| 0 <= i < |tags| && tags[i] != [];
      assert tags[i] in matched;
    }
  }

  /** Joined strictly increasing strings are empty only when every one is. */
  lemma JoinSortedEmpty(tags: seq<string>)
    requires StrictlySorted(tags)
    ensures Join(tags, ", ") == [] <==> forall i | 0 <= i < |tags| :: tags[i] == []
  {
    if |tags| >= 2 {
      assert StrLess(tags[0], tags[1]);
      assert tags[1] != [];
      assert |Join(tags, ", ")| >= 2;
    }
  }

  /** Whether any term of `rule` occurs in `textLower` (the inner `any(...)`). */
  method RuleHit(rule: Rule, textLower: string) returns (hit: bool)
    ensures hit == RuleMatches(rule, textLower)
  {
    hit := false;
    var k := 0;
    while k < |rule.terms| && !hit
      invariant k <= |rule.terms|
      invariant hit <==> exists m | 0 <= m < k :: Contains(textLower, Lower(rule.terms[m]))
    {
      hit := Contains(textLower, Lower(rule.terms[k]));
      k := k + 1;
    }
  }

  /** One more rule extends the matched tags by its tag exactly when it matches. */
  lemma MatchedTagsNext(rules: seq<Rule>, i: nat, textLower: string)
    requires i < |rules|
    ensures MatchedTags(rules[..i + 1], textLower)
         == MatchedTags(rules[..i], textLower)
            + (if RuleMatches(rules[i], textLower) then [rules[i].tag] else [])
  {
    assert rules[..i + 1][..i] == rules[..i];
  }

  /** `suggest_my_keywords`: the loop over the normalised rules. */
  method SuggestMyKeywords(text: string, config: seq<KeywordEntry>) returns (r: string)
    ensures r == Suggestion(text, config)
  {
    if text == [] {
      return [];
    }
    var textLower := Lower(text);
    var rules := NormalizeKeywordConfig(config);
    var matches: seq<string> := [];
    var i := 0;
    while i < |rules|
      invariant i <= |rules|
      invariant matches == MatchedTags(rules[..i], textLower)
    {
      var hit := RuleHit(rules[i], textLower);
      MatchedTagsNext(rules, i, textLower);
      if hit {
        matches := matches + [rules[i].tag];
      }
      i := i + 1;
    }
    assert rules[..i] == rules;
    r := Join(SortDistinct(matches), ", ");
  }

  // ---------------------------------------------------------------------------
  // split_tags (CODE/bib.py:130-134)
  // ---------------------------------------------------------------------------

  const TagSeparators: set<char> := {';', ','}

  /** No semicolon and no comma. */
  predicate Unseparated(t: string) { ';' !in t && ',' !in t }

  /** Index of the first separator in `s`, or |s|. */
  function SeparatorIndex(s: string): (k: nat)
    ensures k <= |s|
    ensures k < |s| ==> s[k] in TagSeparators
    ensures forall i | 0 <= i < k :: s[i] !in TagSeparators
  {
    if s == [] then 0
    else if s[0] in TagSeparators then 0
    else 1 + SeparatorIndex(s[1..])
  }

  /** `re.split(r"[;,]", s)`. */
  function SplitSeparators(s: string): (parts: seq<string>)
    ensures |parts| >= 1
    ensures forall p | p in parts :: Unseparated(p)
    decreases |s|
  {
    var k := SeparatorIndex(s);
    if k == |s| then [s] else [s[..k]] + SplitSeparators(s[k + 1..])
  }

  /** The stripped parts that are not blank, in order. */
  function KeepStripped(parts: seq<string>): (tags: seq<string>)
    ensures forall t | t in tags :: t != []
  {
    if parts == [] then []
    else
      var p := Strip(parts[0]);
      (if p == [] then [] else [p]) + KeepStripped(parts[1..])
  }

  /** `split_tags`: the non-blank parts between semicolons and commas, stripped. */
  function SplitTags(value: string): (tags: seq<string>)
    ensures value == [] ==> tags == []
    ensures forall t | t in tags :: t != [] && Unseparated(t)
  {
    if value == [] then []
    else
      var parts := SplitSeparators(value);
      var tags := KeepStripped(parts);
      assert forall t | t in tags :: Unseparated(t) by {
        KeepStrippedKeeps(parts);
      }
      tags
  }

  /** Stripping only removes characters. */
  lemma {:induction false} KeepStrippedKeeps(parts: seq<string>)
    requires forall p | p in parts :: Unseparated(p)
    ensures forall t | t in KeepStripped(parts) :: Unseparated(t)
  {
    if parts != [] {
      KeepStrippedKeeps(parts[1..]);
      assert parts[0] in parts;
      if ';' in Strip(parts[0]) { StripKeeps(parts[0], ';'); }
      if ',' in Strip(parts[0]) { StripKeeps(parts[0], ','); }
    }
  }

  /** A tag that survives `split_tags` unchanged. */
  predicate IsTag(t: string) {
    t != [] && Strip(t) == t && Unseparated(t)
  }

  function Spaced(us: seq<string>): (vs: seq<string>)
    ensures |vs| == |us|
  {
    seq(|us|, i requires 0 <= i < |us| => " " + us[i])
  }

  lemma NoSeparator(s: string)
    requires Unseparated(s)
    ensures SplitSeparators(s) == [s]
  {
    assert SeparatorIndex(s) == |s|;
  }

  /** Splitting a ", "-joined list gives its first element and the others
      with their leading space. */
  lemma {:induction false} SplitJoined(pre: string, ts: seq<string>)
    requires |ts| >= 1
    requires Unseparated(pre)
    requires forall t | t in ts :: IsTag(t)
    ensures SplitSeparators(pre + Join(ts, ", ")) == [pre + ts[0]] + Spaced(ts[1..])
    decreases |ts|
  {
    var head := pre + ts[0];
    assert IsTag(ts[0]);
    if |ts| == 1 {
      NoSeparator(head);
    } else {
      var tail := " " + Join(ts[1..], ", ");
      var s := pre + Join(ts, ", ");
      assert s == head + [','] + tail;
      assert SeparatorIndex(s) == |head| by {
        assert forall i | 0 <= i < |head| :: s[i] == head[i];
        SeparatorStops(s, head);
      }
      assert s[..|head|] == head && s[|head| + 1..] == tail;
      assert forall t | t in ts[1..] :: IsTag(t);
      SplitJoined(" ", ts[1..]);
      SpacedCons(ts[1..]);
      assert ts[1..][1..] == ts[2..];
    }
  }

  lemma SpacedCons(us: seq<string>)
    requires |us| >= 1
    ensures Spaced(us) == [" " + us[0]] + Spaced(us[1..])
  {
    var a := Spaced(us);
    var b := [" " + us[0]] + Spaced(us[1..]);
    assert |a| == |b|;
    forall i | 0 <= i < |a| ensures a[i] == b[i] {
      if i > 0 {
        assert b[i] == Spaced(us[1..])[i - 1];
      }
    }
  }

  lemma SeparatorStops(s: string, head: string)
    requires |head| < |s| && s[..|head|] == head && s[|head|] in TagSeparators
    requires Unseparated(head)
    ensures SeparatorIndex(s) == |head|
  {
  }

  lemma StripLeadingSpace(t: string)
    requires Strip(t) == t
    ensures Strip(" " + t) == t
  {
    assert (" " + t)[1..] == t;
    assert LStripSpace(" " + t) == LStripSpace(t);
  }

  lemma {:induction false} KeepSpaced(us: seq<string>)
    requires forall t | t in us :: IsTag(t)
    ensures KeepStripped(Spaced(us)) == us
    decreases |us|
  {
    if us != [] {
      assert us[0] in us;
      StripLeadingSpace(us[0]);
      assert Spaced(us)[0] == " " + us[0];
      assert Spaced(us)[1..] == Spaced(us[1..]);
      assert forall t | t in us[1..] :: IsTag(t);
      KeepSpaced(us[1..]);
      assert us == [us[0]] + us[1..];
    }
  }

  /** `split_tags` reads back a list of tags joined by ", " — the form in
      which `suggest_my_keywords` writes them. */
  lemma SplitTagsOfJoin(ts: seq<string>)
    requires forall t | t in ts :: IsTag(t)
    ensures SplitTags(Join(ts, ", ")) == ts
  {
    if ts != [] {
      var j := Join(ts, ", ");
      assert ts[0] in ts && IsTag(ts[0]);
      assert j[..|ts[0]|] == ts[0];
      SplitJoined([], ts);
      assert [] + j == j;
      var parts := SplitSeparators(j);
      assert parts[0] == ts[0] && parts[1..] == Spaced(ts[1..]);
      assert forall t | t in ts[1..] :: IsTag(t);
      KeepSpaced(ts[1..]);
      assert KeepStripped(parts) == [ts[0]] + ts[1..];
      assert ts == [ts[0]] + ts[1..];
    }
  }

  /** When every configured tag is a plain tag, the suggestion reads back
      through `split_tags` as exactly the sorted distinct tags of the
      matching rules. */
  lemma SuggestionReadsBack(text: string, config: seq<KeywordEntry>)
    requires forall e | e in config && Admitted(e) :: IsTag(RuleOf(e).tag)
    ensures text != [] ==> SplitTags(Suggestion(text, config)) == SortDistinct(MatchedTags(NormalizedRules(config), Lower(text)))
    ensures forall t :: t in SplitTags(Suggestion(text, config)) <==>
      text != [] && exists r | r in NormalizedRules(config) :: RuleMatches(r, Lower(text)) && r.tag == t
  {
    if text != [] {
      var rules := NormalizedRules(config);
      var matched := MatchedTags(rules, Lower(text));
      var tags := SortDistinct(matched);
      forall t | t in tags ensures IsTag(t) {
        var r :| r in rules && RuleMatches(r, Lower(text)) && r.tag == t;
        var e :| e in config && Admitted(e) && r == RuleOf(e);
      }
      SplitTagsOfJoin(tags);
    }
  }
}
