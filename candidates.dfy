/** Title candidates from the first page of a PDF and the choice among them
    (CODE/bib.py:300-367, 428-440). */
module Candidates {
  import opened Text
  import opened Titles

  // ---------------------------------------------------------------------------
  // split_text_blocks (CODE/bib.py:300-316)
  // ---------------------------------------------------------------------------

  /** One line of extracted text as the block splitter sees it:
      `re.sub(r"\s+", " ", html.unescape(raw)).strip()`. */
  function CleanLine(raw: string): (line: string)
    ensures IsCollapsed(line)
  {
    Collapse(Unescape(raw))
  }

  /** The raw lines of `text` after newline normalisation. */
  function RawLines(text: string): seq<string>
  {
    SplitOn(NormalizeNewlines(text), '\n')
  }

  function CleanLines(text: string): (lines: seq<string>)
    ensures |lines| == |RawLines(text)|
    ensures forall k | 0 <= k < |lines| :: lines[k] == CleanLine(RawLines(text)[k])
  {
    var raw := RawLines(text);
    seq(|raw|, k requires 0 <= k < |raw| => CleanLine(raw[k]))
  }

  /** A block is a non-empty run of non-empty, collapsed lines. */
  predicate IsBlock(b: seq<string>) {
    b != [] && forall k | 0 <= k < |b| :: b[k] != [] && IsCollapsed(b[k])
  }

  /** The loop of `split_text_blocks` from the line `lines[0]` on, with the
      block being collected in `cur` and the finished blocks in `blocks`. */
  function BlockFold(lines: seq<string>, cur: seq<string>, blocks: seq<seq<string>>, maxBlocks: nat): seq<seq<string>>
    decreases |lines|
  {
    if lines == [] then
      if cur != [] && |blocks| < maxBlocks then blocks + [cur] else blocks
    else if lines[0] != [] then
      BlockFold(lines[1..], cur + [lines[0]], blocks, maxBlocks)
    else if cur != [] then
      if |blocks| + 1 >= maxBlocks then blocks + [cur]
      else BlockFold(lines[1..], [], blocks + [cur], maxBlocks)
    else
      BlockFold(lines[1..], [], blocks, maxBlocks)
  }

  function TextBlocks(text: string, maxBlocks: nat): seq<seq<string>>
  {
    BlockFold(CleanLines(text), [], [], maxBlocks)
  }

  /** The reference definition: the maximal runs of non-empty lines, `cur`
      being the run in progress. */
  function Paragraphs(lines: seq<string>, cur: seq<string>): seq<seq<string>>
    decreases |lines|
  {
    if lines == [] then (if cur != [] then [cur] else [])
    else if lines[0] != [] then Paragraphs(lines[1..], cur + [lines[0]])
    else if cur != [] then [cur] + Paragraphs(lines[1..], [])
    else Paragraphs(lines[1..], [])
  }

  /** `split_text_blocks` keeps the first `maxBlocks` paragraphs. */
  lemma {:induction false} BlockFoldIsTake(lines: seq<string>, cur: seq<string>, blocks: seq<seq<string>>, maxBlocks: nat)
    requires |blocks| < maxBlocks
    ensures BlockFold(lines, cur, blocks, maxBlocks) == Take(blocks + Paragraphs(lines, cur), maxBlocks)
    decreases |lines|
  {
    if lines == [] {
    } else if lines[0] != [] {
      BlockFoldIsTake(lines[1..], cur + [lines[0]], blocks, maxBlocks);
    } else if cur != [] {
      var rest := Paragraphs(lines[1..], []);
      assert blocks + Paragraphs(lines, cur) == (blocks + [cur]) + rest;
      if |blocks| + 1 >= maxBlocks {
        assert (blocks + [cur] + rest)[..maxBlocks] == blocks + [cur];
      } else {
        BlockFoldIsTake(lines[1..], [], blocks + [cur], maxBlocks);
      }
    } else {
      BlockFoldIsTake(lines[1..], [], blocks, maxBlocks);
    }
  }

  lemma {:induction false} ParagraphsAreBlocks(lines: seq<string>, cur: seq<string>)
    requires forall k | 0 <= k < |lines| :: IsCollapsed(lines[k])
    requires cur == [] || IsBlock(cur)
    ensures forall b | b in Paragraphs(lines, cur) :: IsBlock(b)
    decreases |lines|
  {
    if lines != [] {
      if lines[0] != [] {
        ParagraphsAreBlocks(lines[1..], cur + [lines[0]]);
      } else {
        ParagraphsAreBlocks(lines[1..], []);
      }
    }
  }

  /** `split_text_blocks(text, maxBlocks)`, for any positive limit, is the
      first `maxBlocks` maximal runs of non-empty cleaned lines; every block
      is non-empty and each of its lines is non-empty and collapsed. */
  lemma TextBlocksAreParagraphs(text: string, maxBlocks: nat)
    requires maxBlocks >= 1
    ensures TextBlocks(text, maxBlocks) == Take(Paragraphs(CleanLines(text), []), maxBlocks)
    ensures |TextBlocks(text, maxBlocks)| <= maxBlocks
    ensures forall b | b in TextBlocks(text, maxBlocks) :: IsBlock(b)
  {
    var lines := CleanLines(text);
    BlockFoldIsTake(lines, [], [], maxBlocks);
    assert [] + Paragraphs(lines, []) == Paragraphs(lines, []);
    ParagraphsAreBlocks(lines, []);
    var ps := Paragraphs(lines, []);
    forall b | b in TextBlocks(text, maxBlocks) ensures IsBlock(b) {
      if |ps| > maxBlocks {
        var k :| 0 <= k < maxBlocks && ps[..maxBlocks][k] == b;
        assert ps[k] == b;
      }
    }
  }

  /** `split_text_blocks` (CODE/bib.py:300-316). */
  method SplitTextBlocks(text: string, maxBlocks: nat) returns (blocks: seq<seq<string>>)
    ensures blocks == TextBlocks(text, maxBlocks)
  {
    var raw := RawLines(text);
    ghost var lines := CleanLines(text);
    blocks := [];
    var current: seq<string> := [];
    var i := 0;
    while i < |raw|
      invariant 0 <= i <= |raw|
      invariant BlockFold(lines, [], [], maxBlocks) == BlockFold(lines[i..], current, blocks, maxBlocks)
    {
      var line := CleanLine(raw[i]);
      assert lines[i..][0] == line && lines[i..][1..] == lines[i + 1..];
      if line != [] {
        current := current + [line];
        i := i + 1;
        continue;
      }
      if current != [] {
        blocks := blocks + [current];
        if |blocks| >= maxBlocks {
          return;
        }
        current := [];
      }
      i := i + 1;
    }
    assert lines[i..] == [];
    if current != [] && |blocks| < maxBlocks {
      blocks := blocks + [current];
    }
  }

  // ---------------------------------------------------------------------------
  // guess_title_from_first_page (CODE/bib.py:319-367)
  // ---------------------------------------------------------------------------

  /** `TITLE_SECTION_RE.match(line)`; the pattern ignores case. */
  predicate IsSectionLine(line: string) {
    StartsWithSection(Lower(line))
  }

  /** The first candidate loop: blocks up to the first one that opens a section. */
  function BlockCandidates(blocks: seq<seq<string>>): seq<string>
  {
    if blocks == [] then []
    else if blocks[0] == [] then BlockCandidates(blocks[1..])
    else if IsSectionLine(blocks[0][0]) then []
    else TakePart(blocks[0]) + BlockCandidates(blocks[1..])
  }

  /** The second loop's `lines`: cleaned non-empty lines before the first
      section line, at most 60. `acc` holds the lines kept so far. */
  function TitleLinesFrom(cleaned: seq<string>, acc: seq<string>): seq<string>
    requires |acc| < 60
    decreases |cleaned|
  {
    if cleaned == [] then acc
    else if cleaned[0] == [] then TitleLinesFrom(cleaned[1..], acc)
    else if IsSectionLine(cleaned[0]) then acc
    else if |acc| + 1 >= 60 then acc + [cleaned[0]]
    else TitleLinesFrom(cleaned[1..], acc + [cleaned[0]])
  }

  function TitleLines(text: string): seq<string>
  {
    TitleLinesFrom(CleanLines(text), [])
  }

  /** The candidates of the line loop from index `idx`: each of the first 25
      lines alone and joined with the next one. */
  function LineCandidates(lines: seq<string>, idx: nat): seq<string>
    decreases |lines| - idx
  {
    if idx >= |lines| || idx >= 25 then []
    else
      var pair := if idx + 1 < |lines| then [lines[idx] + " " + lines[idx + 1]] else [];
      [lines[idx]] + pair + LineCandidates(lines, idx + 1)
  }

  /** Every candidate `guess_title_from_first_page` considers, in order. */
  function TitleCandidates(text: string): seq<string>
  {
    BlockCandidates(TextBlocks(text, 12)) + LineCandidates(TitleLines(text), 0)
  }

  const TrimChars: set<char> := {' ', '.', ':', ';', '-', '|'}

  /** `normalize_title_text(raw).strip(" .:;-|")`. */
  function PrepareCandidate(raw: string): (c: string)
    ensures c != [] ==> Strip(c) == c
  {
    var n := NormalizeTitle(raw);
    var c := StripChars(n, TrimChars);
    TrimmedHasNoOuterSpace(n, c);
    c
  }

  lemma TrimmedHasNoOuterSpace(n: string, c: string)
    requires Squashed(n) && c == StripChars(n, TrimChars)
    ensures c != [] ==> Strip(c) == c
  {
    if c != [] {
      var a := StripStart(n, TrimChars);
      assert c[0] == n[a] && c[|c| - 1] == n[a + |c| - 1];
      assert !IsSpace(c[0]) && !IsSpace(c[|c| - 1]);
    }
  }

  /** The lower-case keys of `ks`. */
  function Keys(ks: seq<string>): set<string>
  {
    set k | k in ks :: Lower(k)
  }

  /** Every candidate after `prepare`, in order. */
  function PreparedWith(cands: seq<string>, prepare: string -> string): (ps: seq<string>)
    ensures |ps| == |cands|
    ensures forall k | 0 <= k < |cands| :: ps[k] == prepare(cands[k])
  {
    seq(|cands|, k requires 0 <= k < |cands| => prepare(cands[k]))
  }

  /** Every candidate after `PrepareCandidate`, in order. */
  function Prepared(cands: seq<string>): (ps: seq<string>)
    ensures |ps| == |cands|
    ensures forall k | 0 <= k < |cands| :: ps[k] == PrepareCandidate(cands[k])
  {
    PreparedWith(cands, PrepareCandidate)
  }

  /** The prepared candidates that survive the empty test and the
      lower-case dedupe, in order, `seen` holding the keys met so far. */
  function KeptFrom(ps: seq<string>, seen: set<string>): (kept: seq<string>)
    decreases |ps|
    ensures forall k | 0 <= k < |kept| :: kept[k] != [] && Lower(kept[k]) !in seen
    ensures forall k | 0 <= k < |kept| :: kept[k] in ps
  {
    if ps == [] then []
    else
      var c := ps[0];
      if c == [] || Lower(c) in seen then KeptFrom(ps[1..], seen)
      else
        var rest := KeptFrom(ps[1..], seen + {Lower(c)});
        assert forall k | 0 <= k < |rest| :: Lower(rest[k]) !in seen;
        [c] + rest
  }

  /** No two of `ks` share a lower-case key. */
  predicate DistinctKeys(ks: seq<string>) {
    forall a, b | 0 <= a < b < |ks| :: Lower(ks[a]) != Lower(ks[b])
  }

  /** The kept candidates have pairwise distinct lower-case keys. */
  lemma {:induction false} KeptDistinct(ps: seq<string>, seen: set<string>)
    ensures DistinctKeys(KeptFrom(ps, seen))
    decreases |ps|
  {
    if ps != [] {
      var c := ps[0];
      if c == [] || Lower(c) in seen {
        KeptDistinct(ps[1..], seen);
        assert KeptFrom(ps, seen) == KeptFrom(ps[1..], seen);
      } else {
        var rest := KeptFrom(ps[1..], seen + {Lower(c)});
        KeptDistinct(ps[1..], seen + {Lower(c)});
        var kept := [c] + rest;
        assert KeptFrom(ps, seen) == kept;
        forall a, b | 0 <= a < b < |kept| ensures Lower(kept[a]) != Lower(kept[b]) {
          assert kept[b] == rest[b - 1];
          assert Lower(rest[b - 1]) !in seen + {Lower(c)};
          if a > 0 {
            assert kept[a] == rest[a - 1];
          }
        }
      }
    }
  }

  /** Every key met is kept once: a prepared candidate that is non-empty
      has its key either in `seen` or among the kept ones. */
  lemma {:induction false} KeptCovers(ps: seq<string>, seen: set<string>)
    ensures forall k | 0 <= k < |ps| :: ps[k] == [] || Lower(ps[k]) in seen || Lower(ps[k]) in Keys(KeptFrom(ps, seen))
    decreases |ps|
  {
    if ps != [] {
      var c := ps[0];
      if c == [] || Lower(c) in seen {
        KeptCovers(ps[1..], seen);
        forall k | 1 <= k < |ps| ensures ps[k] == [] || Lower(ps[k]) in seen || Lower(ps[k]) in Keys(KeptFrom(ps, seen)) {
          assert ps[k] == ps[1..][k - 1];
        }
      } else {
        var rest := KeptFrom(ps[1..], seen + {Lower(c)});
        KeptCovers(ps[1..], seen + {Lower(c)});
        assert KeptFrom(ps, seen) == [c] + rest;
        assert Keys(KeptFrom(ps, seen)) == {Lower(c)} + Keys(rest);
        forall k | 1 <= k < |ps| ensures ps[k] == [] || Lower(ps[k]) in seen || Lower(ps[k]) in Keys(KeptFrom(ps, seen)) {
          assert ps[k] == ps[1..][k - 1];
        }
      }
    }
  }

  /** The scores of `ks`, in order. */
  function ScoresOf(ks: seq<string>): (xs: seq<int>)
    ensures |xs| == |ks|
    ensures forall j | 0 <= j < |ks| :: xs[j] == ScoreTitle(ks[j])
  {
    seq(|ks|, j requires 0 <= j < |ks| => ScoreTitle(ks[j]))
  }

  /** The largest of the non-empty `xs`. */
  function MaxOf(xs: seq<int>): int
    requires xs != []
    decreases |xs|
  {
    if |xs| == 1 then xs[0]
    else
      var m := MaxOf(xs[..|xs| - 1]);
      if xs[|xs| - 1] > m then xs[|xs| - 1] else m
  }

  /** Where a left-to-right scan with a strict `>` last raised its maximum. */
  function FirstMaxOf(xs: seq<int>): (i: nat)
    requires xs != []
    decreases |xs|
    ensures i < |xs|
  {
    if |xs| == 1 then 0
    else if xs[|xs| - 1] > MaxOf(xs[..|xs| - 1]) then |xs| - 1
    else FirstMaxOf(xs[..|xs| - 1])
  }

  /** The keep-the-first-strict-maximum rule: `FirstMaxOf` is the earliest
      position that attains the maximum. */
  lemma {:induction false} FirstMaxIsFirstBest(xs: seq<int>)
    requires xs != []
    ensures xs[FirstMaxOf(xs)] == MaxOf(xs)
    ensures forall j | 0 <= j < |xs| :: xs[j] <= MaxOf(xs)
    ensures forall j | 0 <= j < FirstMaxOf(xs) :: xs[j] < MaxOf(xs)
    decreases |xs|
  {
    if |xs| > 1 {
      var p := xs[..|xs| - 1];
      FirstMaxIsFirstBest(p);
      assert forall j | 0 <= j < |p| :: xs[j] == p[j];
    }
  }

  /** The selection rule over the kept candidates. */
  function Choose(kept: seq<string>): string
  {
    var xs := ScoresOf(kept);
    if kept != [] && MaxOf(xs) > 0 then kept[FirstMaxOf(xs)] else ""
  }

  /** What `guess_title_from_first_page` returns. */
  function GuessTitle(text: string): string
  {
    Choose(KeptFrom(Prepared(TitleCandidates(text)), {}))
  }

  /** The selection rule returns `""` exactly when no kept candidate scores
      above zero, and otherwise the kept candidate at position `FirstMaxOf`:
      a best-scoring one with every earlier one scoring strictly less. */
  lemma ChooseFirstBest(kept: seq<string>)
    ensures Choose(kept) == [] <==> forall j | 0 <= j < |kept| :: ScoreTitle(kept[j]) <= 0
    ensures Choose(kept) != [] ==> var i := FirstMaxOf(ScoresOf(kept));
      && Choose(kept) == kept[i]
      && (forall j | 0 <= j < |kept| :: ScoreTitle(kept[j]) <= ScoreTitle(kept[i]))
      && (forall j | 0 <= j < i :: ScoreTitle(kept[j]) < ScoreTitle(kept[i]))
  {
    if kept != [] {
      var xs := ScoresOf(kept);
      FirstMaxIsFirstBest(xs);
      var i := FirstMaxOf(xs);
      if MaxOf(xs) > 0 {
        assert xs[i] > 0;
        assert ScoreTitle(kept[i]) > 0;
        assert kept[i] != [];
      }
    }
  }

  /** The first candidate loop from block `i` on, one block unfolded. */
  lemma BlockCandidatesAt(blocks: seq<seq<string>>, i: nat)
    requires i < |blocks|
    ensures BlockCandidates(blocks[i..]) ==
      if blocks[i] == [] then BlockCandidates(blocks[i + 1..])
      else if IsSectionLine(blocks[i][0]) then []
      else TakePart(blocks[i]) + BlockCandidates(blocks[i + 1..])
  {
    assert blocks[i..][0] == blocks[i] && blocks[i..][1..] == blocks[i + 1..];
  }

  /** The first candidate loop (CODE/bib.py:323-333). */
  method CollectBlockCandidates(blocks: seq<seq<string>>) returns (cands: seq<string>)
    ensures cands == BlockCandidates(blocks)
  {
    cands := [];
    var i := 0;
    assert blocks[0..] == blocks;
    while i < |blocks|
      invariant 0 <= i <= |blocks|
      invariant BlockCandidates(blocks) == cands + BlockCandidates(blocks[i..])
    {
      var block := blocks[i];
      ghost var rest := BlockCandidates(blocks[i + 1..]);
      BlockCandidatesAt(blocks, i);
      if block == [] {
        i := i + 1;
        continue;
      }
      if IsSectionLine(block[0]) {
        assert cands + [] == cands;
        return;
      }
      var fromBlock := BlockTakes(block);
      assert cands + (fromBlock + rest) == (cands + fromBlock) + rest;
      cands := cands + fromBlock;
      i := i + 1;
    }
    assert blocks[i..] == [];
    assert cands + [] == cands;
  }

  /** The candidate the `take` loop adds for `take` (none when the block is
      shorter or the joined lines strip to nothing). */
  function TakeCandidate(b: seq<string>, take: nat): seq<string>
  {
    if take <= |b| && Strip(Join(b[..take], " ")) != [] then [Strip(Join(b[..take], " "))] else []
  }

  /** The candidates one block offers, for `take` = 1, 2, 3. */
  function TakePart(b: seq<string>): seq<string>
  {
    TakeCandidate(b, 1) + TakeCandidate(b, 2) + TakeCandidate(b, 3)
  }

  /** The `take` loop over one block (CODE/bib.py:329-333). */
  method BlockTakes(block: seq<string>) returns (cands: seq<string>)
    ensures cands == TakePart(block)
  {
    cands := [];
    var take := 1;
    while take <= 3
      invariant 1 <= take <= 4
      invariant take == 1 ==> cands == []
      invariant take == 2 ==> cands == TakeCandidate(block, 1)
      invariant take == 3 ==> cands == TakeCandidate(block, 1) + TakeCandidate(block, 2)
      invariant take == 4 ==> cands == TakePart(block)
    {
      if |block| >= take {
        var candidate := Strip(Join(block[..take], " "));
        if candidate != [] {
          cands := cands + [candidate];
        }
      }
      take := take + 1;
    }
  }

  /** The second loop's line list (CODE/bib.py:335-345). */
  method CollectTitleLines(text: string) returns (lines: seq<string>)
    ensures lines == TitleLines(text)
  {
    var raw := RawLines(text);
    ghost var cleaned := CleanLines(text);
    lines := [];
    var i := 0;
    while i < |raw|
      invariant 0 <= i <= |raw|
      invariant |lines| < 60
      invariant TitleLines(text) == TitleLinesFrom(cleaned[i..], lines)
    {
      var clean := CleanLine(raw[i]);
      assert cleaned[i..][0] == clean && cleaned[i..][1..] == cleaned[i + 1..];
      if clean == [] {
        i := i + 1;
        continue;
      }
      if IsSectionLine(clean) {
        return;
      }
      lines := lines + [clean];
      if |lines| >= 60 {
        return;
      }
      i := i + 1;
    }
    assert cleaned[i..] == [];
  }

  /** The pairing loop (CODE/bib.py:346-349). */
  method CollectLineCandidates(lines: seq<string>) returns (cands: seq<string>)
    ensures cands == LineCandidates(lines, 0)
  {
    cands := [];
    var n := if |lines| < 25 then |lines| else 25;
    var idx := 0;
    while idx < n
      invariant 0 <= idx <= n
      invariant LineCandidates(lines, 0) == cands + LineCandidates(lines, idx)
    {
      cands := cands + [lines[idx]];
      if idx + 1 < |lines| {
        cands := cands + [lines[idx] + " " + lines[idx + 1]];
      }
      idx := idx + 1;
    }
  }

  /** The selection loop's `best` and `best_score` after the kept
      candidates `kept`: the first strict maximum and its score. */
  ghost predicate Leader(kept: seq<string>, best: string, bestScore: int) {
    if kept == [] then best == "" && bestScore == -100
    else bestScore == MaxOf(ScoresOf(kept)) && best == kept[FirstMaxOf(ScoresOf(kept))]
  }

  /** One kept candidate moves the leader only when it scores strictly more. */
  lemma LeaderStep(kept: seq<string>, c: string, best: string, bestScore: int)
    requires Leader(kept, best, bestScore) && ScoreTitle(c) > -100
    ensures var score := ScoreTitle(c);
      Leader(kept + [c], if score > bestScore then c else best, if score > bestScore then score else bestScore)
  {
    ScoresAppend(kept, c);
    if kept != [] {
      MaxStep(ScoresOf(kept), ScoreTitle(c));
    }
  }

  lemma ScoresAppend(kept: seq<string>, c: string)
    ensures ScoresOf(kept + [c]) == ScoresOf(kept) + [ScoreTitle(c)]
  {
  }

  /** Appending `x` raises the maximum, and moves its first position to
      the end, exactly when `x` beats the old maximum. */
  lemma MaxStep(xs: seq<int>, x: int)
    requires xs != []
    ensures MaxOf(xs + [x]) == if x > MaxOf(xs) then x else MaxOf(xs)
    ensures FirstMaxOf(xs + [x]) == if x > MaxOf(xs) then |xs| else FirstMaxOf(xs)
  {
    assert (xs + [x])[..|xs|] == xs;
  }

  /** One step of the dedupe: the next prepared candidate is skipped, or
      kept and its key recorded. */
  lemma KeptStep(ps: seq<string>, i: nat, seen: set<string>)
    requires i < |ps|
    ensures KeptFrom(ps[i..], seen) ==
      if ps[i] == [] || Lower(ps[i]) in seen then KeptFrom(ps[i + 1..], seen)
      else [ps[i]] + KeptFrom(ps[i + 1..], seen + {Lower(ps[i])})
  {
    assert ps[i..][0] == ps[i] && ps[i..][1..] == ps[i + 1..];
  }

  lemma ConcatStep<T>(a: seq<T>, x: T, b: seq<T>)
    ensures a + ([x] + b) == (a + [x]) + b
  {
  }

  lemma KeysAppend(kept: seq<string>, c: string)
    ensures Keys(kept + [c]) == Keys(kept) + {Lower(c)}
  {
    assert forall k | k in kept + [c] :: k in kept || k == c;
  }

  /** The selection loop (CODE/bib.py:351-367). */
  method ChooseTitle(cands: seq<string>) returns (best: string)
    ensures best == Choose(KeptFrom(Prepared(cands), {}))
  {
    assert PreparesStripped(PrepareCandidate);
    best := ChooseLoop(cands, PrepareCandidate);
  }

  /** The state of the selection loop before the prepared candidate `i`:
      `kept` holds the candidates kept so far, `seen` their keys, and
      `best`, `bestScore` their leader. */
  ghost predicate Choosing(ps: seq<string>, i: int, kept: seq<string>, seen: set<string>, best: string, bestScore: int) {
    && 0 <= i <= |ps|
    && seen == Keys(kept)
    && KeptFrom(ps, {}) == kept + KeptFrom(ps[i..], seen)
    && Leader(kept, best, bestScore)
  }

  /** One turn of the selection loop keeps `Choosing`. */
  lemma ChoosingStep(ps: seq<string>, i: nat, kept: seq<string>, seen: set<string>, best: string, bestScore: int)
    requires Choosing(ps, i, kept, seen, best, bestScore) && i < |ps|
    requires ps[i] != [] ==> Strip(ps[i]) == ps[i]
    ensures var c := ps[i];
      c == [] || Lower(c) in seen ==> Choosing(ps, i + 1, kept, seen, best, bestScore)
    ensures var c := ps[i]; var score := ScoreTitle(c);
      !(c == [] || Lower(c) in seen) ==>
        Choosing(ps, i + 1, kept + [c], seen + {Lower(c)},
          if score > bestScore then c else best, if score > bestScore then score else bestScore)
  {
    var c := ps[i];
    KeptStep(ps, i, seen);
    if !(c == [] || Lower(c) in seen) {
      ConcatStep(kept, c, KeptFrom(ps[i + 1..], seen + {Lower(c)}));
      LeaderStep(kept, c, best, bestScore);
      KeysAppend(kept, c);
    }
  }

  /** After the last candidate the leader, if it scores above zero, is the
      choice. */
  lemma ChoosingDone(ps: seq<string>, kept: seq<string>, seen: set<string>, best: string, bestScore: int)
    requires Choosing(ps, |ps|, kept, seen, best, bestScore)
    ensures (if bestScore <= 0 then "" else best) == Choose(KeptFrom(ps, {}))
  {
    assert ps[|ps|..] == [];
    assert kept == KeptFrom(ps, {});
  }

  /** `prepare` leaves nothing to strip from a non-empty result, as
      `PrepareCandidate` does. */
  ghost predicate PreparesStripped(prepare: string -> string) {
    forall x :: prepare(x) != [] ==> Strip(prepare(x)) == prepare(x)
  }

  /** What the selection loop returns when started before the prepared
      candidate `i` with the keys `seen` and the leader `best`, `bestScore`. */
  ghost function RunFrom(ps: seq<string>, i: nat, seen: set<string>, best: string, bestScore: int): string
    requires i <= |ps|
    decreases |ps| - i
  {
    if i == |ps| then (if bestScore <= 0 then "" else best)
    else
      var c := ps[i];
      if c == [] || Lower(c) in seen then RunFrom(ps, i + 1, seen, best, bestScore)
      else
        var score := ScoreTitle(c);
        RunFrom(ps, i + 1, seen + {Lower(c)},
          if score > bestScore then c else best, if score > bestScore then score else bestScore)
  }

  /** From any state `Choosing` describes, the rest of the loop returns the
      selection rule over the kept candidates. */
  lemma {:induction false} RunFromChoosing(ps: seq<string>, i: nat, kept: seq<string>, seen: set<string>, best: string, bestScore: int)
    requires Choosing(ps, i, kept, seen, best, bestScore)
    requires forall k | 0 <= k < |ps| :: ps[k] != [] ==> Strip(ps[k]) == ps[k]
    ensures RunFrom(ps, i, seen, best, bestScore) == Choose(KeptFrom(ps, {}))
    decreases |ps| - i
  {
    if i == |ps| {
      ChoosingDone(ps, kept, seen, best, bestScore);
    } else {
      var c := ps[i];
      ChoosingStep(ps, i, kept, seen, best, bestScore);
      if c == [] || Lower(c) in seen {
        RunFromChoosing(ps, i + 1, kept, seen, best, bestScore);
      } else {
        var score := ScoreTitle(c);
        RunFromChoosing(ps, i + 1, kept + [c], seen + {Lower(c)},
          if score > bestScore then c else best, if score > bestScore then score else bestScore);
      }
    }
  }

  /** The loop started on the prepared candidates computes the selection
      rule. */
  lemma RunFromStart(cands: seq<string>, prepare: string -> string)
    requires PreparesStripped(prepare)
    ensures RunFrom(PreparedWith(cands, prepare), 0, {}, "", -100) == Choose(KeptFrom(PreparedWith(cands, prepare), {}))
  {
    var ps := PreparedWith(cands, prepare);
    assert ps[0..] == ps;
    RunFromChoosing(ps, 0, [], {}, "", -100);
  }

  /** One turn of the selection loop: a new non-empty candidate is scored
      and replaces the best one when it scores higher. */
  method ChooseTurn(ghost ps: seq<string>, ghost i: nat, candidate: string, seen: set<string>, best: string,
                    bestScore: int) returns (seen': set<string>, best': string, bestScore': int)
    requires i < |ps| && ps[i] == candidate
    ensures RunFrom(ps, i, seen, best, bestScore) == RunFrom(ps, i + 1, seen', best', bestScore')
  {
    seen', best', bestScore' := seen, best, bestScore;
    var key := Lower(candidate);
    if candidate != [] && key !in seen {
      var score := ScoreTitle(candidate);
      seen' := seen + {key};
      if score > bestScore {
        best' := candidate;
        bestScore' := score;
      }
    }
  }

  /** The selection loop over any preparation of the candidates. */
  method ChooseLoop(cands: seq<string>, prepare: string -> string) returns (best: string)
    requires PreparesStripped(prepare)
    ensures best == Choose(KeptFrom(PreparedWith(cands, prepare), {}))
  {
    best := "";
    var bestScore := -100;
    var seen: set<string> := {};
    ghost var ps := PreparedWith(cands, prepare);
    RunFromStart(cands, prepare);
    var i := 0;
    while i < |cands|
      invariant i <= |ps| == |cands|
      invariant RunFrom(ps, i, seen, best, bestScore) == RunFrom(ps, 0, {}, "", -100)
    {
      var candidate := prepare(cands[i]);
      assert candidate == ps[i];
      seen, best, bestScore := ChooseTurn(ps, i, candidate, seen, best, bestScore);
      i := i + 1;
    }
    if bestScore <= 0 {
      best := "";
    }
  }

  /** `guess_title_from_first_page` (CODE/bib.py:319-367). */
  method GuessTitleFromFirstPage(text: string) returns (title: string)
    ensures title == GuessTitle(text)
  {
    var blocks := SplitTextBlocks(text, 12);
    var fromBlocks := CollectBlockCandidates(blocks);
    var lines := CollectTitleLines(text);
    var fromLines := CollectLineCandidates(lines);
    title := ChooseTitle(fromBlocks + fromLines);
  }

  // ---------------------------------------------------------------------------
  // extract_title (CODE/bib.py:428-440)
  // ---------------------------------------------------------------------------

  /** `Path(name).stem`: the name without its last suffix, where a suffix
      needs a dot that is neither the first nor the last character. */
  function Stem(name: string): (r: string)
    ensures |r| <= |name| && r == name[..|r|]
  {
    var i := LastIndexOf(name, '.');
    if 0 < i < |name| - 1 then name[..i] else name
  }

  /** `s.rfind(c)`, with -1 for no occurrence. */
  function LastIndexOf(s: string, c: char): (i: int)
    ensures -1 <= i < |s|
    ensures i >= 0 ==> s[i] == c && forall k | i < k < |s| :: s[k] != c
    ensures i == -1 ==> c !in s
  {
    if s == [] then -1
    else if s[|s| - 1] == c then |s| - 1
    else LastIndexOf(s[..|s| - 1], c)
  }

  /** `s.replace(a, b)` for single characters. */
  function ReplaceAll(s: string, a: char, b: char): (r: string)
    ensures |r| == |s|
    ensures forall k | 0 <= k < |s| :: r[k] == (if s[k] == a then b else s[k])
  {
    seq(|s|, k requires 0 <= k < |s| => if s[k] == a then b else s[k])
  }

  /** The title taken from the file name, with underscores read as spaces. */
  function FileNameTitle(filename: string): (r: string)
    ensures '_' !in r
  {
    var spaced := ReplaceAll(Stem(filename), '_', ' ');
    assert '_' !in spaced;
    NormalizeTitle(spaced)
  }

  /** `extract_title`: the first of the metadata title and the guessed
      title that does not need a refresh; failing that the first that is
      non-empty; failing that the file name. So the result needs a refresh
      only when neither candidate avoids one. */
  function ExtractTitle(info: map<string, string>, text: string, filename: string): (r: string)
    ensures var infoTitle := NormalizeTitle(Strip(Get(info, "Title")));
      var guessed := NormalizeTitle(GuessTitle(text));
      && (infoTitle != [] && !NeedsTitleRefresh(infoTitle) ==> r == infoTitle)
      && (NeedsTitleRefresh(infoTitle) && guessed != [] && !NeedsTitleRefresh(guessed) ==> r == guessed)
      && (NeedsTitleRefresh(infoTitle) && NeedsTitleRefresh(guessed) && infoTitle != [] ==> r == infoTitle)
      && (infoTitle == [] && guessed != [] && NeedsTitleRefresh(guessed) ==> r == guessed)
      && (NeedsTitleRefresh(r) ==> (infoTitle == [] || NeedsTitleRefresh(infoTitle)) && (guessed == [] || NeedsTitleRefresh(guessed)))
      && (r == [] ==> infoTitle == [] && guessed == [])
      && (infoTitle == [] && guessed == [] ==> r == FileNameTitle(filename))
  {
    var infoTitle := NormalizeTitle(Strip(Get(info, "Title")));
    var guessed := NormalizeTitle(GuessTitle(text));
    if infoTitle != [] && !NeedsTitleRefresh(infoTitle) then infoTitle
    else if guessed != [] && !NeedsTitleRefresh(guessed) then guessed
    else if infoTitle != [] then infoTitle
    else if guessed != [] then guessed
    else FileNameTitle(filename)
  }


  /** A first page without text yields no guessed title. */
  lemma GuessTitleOfEmpty()
    ensures GuessTitle("") == []
  {
    assert NormalizeNewlines("") == [];
    assert RawLines("") == [""];
    CollapseOfCollapsed("");
    assert CleanLine("") == [];
    assert CleanLines("") == [""];
    assert TextBlocks("", 12) == [];
    assert TitleLines("") == [];
    assert TitleCandidates("") == [];
  }

  /** The file `stem.pdf`, whose stem is lower-case words and digits joined
      by single underscores, is titled by those words joined by spaces. */
  lemma FileNameTitleOfWords(stem: string)
    requires stem != [] && stem[0] != '_' && stem[|stem| - 1] != '_'
    requires forall k | 0 <= k < |stem| :: IsLowerChar(stem[k]) || IsDigit(stem[k]) || stem[k] == '_'
    requires forall k | 1 <= k < |stem| :: stem[k - 1] != '_' || stem[k] != '_'
    ensures FileNameTitle(stem + ".pdf") == ReplaceAll(stem, '_', ' ')
  {
    var name := stem + ".pdf";
    var i := LastIndexOf(name, '.');
    assert name[|stem|] == '.';
    assert forall k | 0 <= k < |stem| :: name[k] == stem[k];
    assert i == |stem|;
    assert Stem(name) == stem;
    var spaced := ReplaceAll(stem, '_', ' ');
    assert forall k | 1 <= k < |spaced| :: !SpacePairAt(spaced, k);
    assert IsCollapsed(spaced);
    NormalizePlain(spaced);
  }

  /** With no `Title` entry and no text, the title is the file name's. */
  lemma ExtractTitleFallback(filename: string)
    ensures ExtractTitle(map[], "", filename) == FileNameTitle(filename)
  {
    assert Get(map[], "Title") == [];
    assert Strip([]) == [];
    GuessTitleOfEmpty();
  }

  /** A file `stem.pdf` of lower-case words and digits joined by single
      underscores, from which the tools read no `Title` and no text, is
      titled by those words joined by spaces. */
  lemma ExtractTitleOfWords(stem: string)
    requires stem != [] && stem[0] != '_' && stem[|stem| - 1] != '_'
    requires forall k | 0 <= k < |stem| :: IsLowerChar(stem[k]) || IsDigit(stem[k]) || stem[k] == '_'
    requires forall k | 1 <= k < |stem| :: stem[k - 1] != '_' || stem[k] != '_'
    ensures ExtractTitle(map[], "", stem + ".pdf") == ReplaceAll(stem, '_', ' ')
  {
    ExtractTitleFallback(stem + ".pdf");
    FileNameTitleOfWords(stem);
  }
}
