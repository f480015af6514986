# A verified model of the bibliography builder

The system turns a directory of PDF files into a flat bibliography. For each
PDF it reads the embedded document information and the extracted text, infers
a title, year, document type, author and DOI, builds a stable code of the form
`{year}_{type}_{title-slug}`, renames the file to that code when the name is
free, and merges the inferred fields into the record a previous scan stored.
Further passes clean up titles and codes, rebuild the side store of
abstracts, import BibTeX entries into matching records, filter and sort the
records, and report inconsistencies.

This project models `CODE/bib.py`, the module that holds all of that logic,
in Dafny:

- `text.dfy` (`Text`): the ASCII string primitives the code relies on —
  `strip`, `lower`, `split`, `\s+` collapse (`collapse_whitespace`), word
  boundaries, `html.unescape` restricted to five entities, decimal numerals,
  sorting of distinct strings.
- `titles.dfy` (`Titles`): `normalize_title_text`, the title regexes as
  predicates, `score_title_candidate`, `is_low_quality_title` and
  `needs_title_refresh`.
- `candidates.dfy` (`Candidates`): `split_text_blocks`, the candidate
  generator and selection of `guess_title_from_first_page`, and
  `extract_title`.
- `identifier.dfy` (`Identifier`): `slugify`, `build_code` and
  `ensure_available_code`.
- `inference.dfy` (`Inference`): `infer_year`, `infer_type`,
  `extract_author` and `extract_doi`.
- `abstracts.dfy` (`Abstracts`): `clean_abstract_text`,
  `is_low_quality_abstract`, `extract_first_text_block` and
  `guess_abstract_for_row`.
- `keywords.dfy` (`Keywords`): `normalize_keyword_config`,
  `suggest_my_keywords` and `split_tags`.
- `bibtex.dfy` (`Bibtex`): `parse_bibtex_entries`.
- `bibimport.dfy` (`BibImport`): the indexes, matching and `set_field` of
  `import_bibtex`.
- `query.dfy` (`Query`): `parse_ymd_date`, `filter_rows` and
  `sort_rows_by_added`.
- `checks.dfy` (`Checks`): the per-row checks of `validate_metadata`, the
  duplicate-code count and bad-title scan of `verify_integrity`, and the
  grouping of `dedupe_metadata`.
- `records.dfy` (`Records`): the row merge and file renames of `scan_pdfs`,
  the title and code rule of `cleanup_titles`, `rebuild_abstracts`, and a
  `Library` class holding the PDF directory (a map from file stems to
  documents), the metadata rows and the abstracts store, whose methods
  change them in place.

The loops of the source are methods with loop invariants, each proved equal
to a specification function; the properties are proved about those
functions. The external tools (`pdfinfo`, `pdftotext`), the clock and the
file system are parameters: a `Doc` carries what the tools return for a file,
`today` is the scan date, and `exists` becomes membership in the directory map
or an abstract `present` predicate.

In four places the code behaves differently from what its names and comments
suggest; the model follows the code:

- Title normalisation is not idempotent. `re.sub` matches do not overlap, so
  `"a- b- c"` normalises to `"a-b- c"` and that to `"a-b-c"`
  (`Titles.NormalizeNotIdempotent`).
- `scan_pdfs` copies every column a previous record has, even an empty one
  (`prev.get(field, inferred)`). An inferred value lands only where the
  previous record lacks the column, not wherever it is blank.
- The labelled abstract ends at the first blank line after content, not the
  second, and it has no minimum length. Only the block fallback needs 80
  characters.
- The last branch of `BAD_TITLE_RE` is the raw string `\\.`: a backslash
  followed by any character, then an extension. A plain `foo.pdf` does not
  match it.

## Model

| member | source | states |
|---|---|---|
| `Text.Collapse` | CODE/bib.py:516-517 | the result has single spaces only and no space at either end |
| `Text.CollapseChars` | CODE/bib.py:516-517 | collapsing keeps every non-space character and adds only spaces |
| `Text.CollapseIdempotent` | CODE/bib.py:516-517 | collapsing whitespace twice gives what collapsing once gives |
| `Text.StripEmpty` | CODE/bib.py:210-212 | `strip()` is empty exactly when every character is whitespace |
| `Text.SortDistinct` | CODE/bib.py:127 | `sorted(set(xs))`: strictly sorted and holding exactly the elements of `xs` |
| `Text.JoinSplitOn` | CODE/bib.py:304 | joining the parts of `split(c)` with `c` gives back the text |
| `Text.NatToStringInjective` | CODE/bib.py:408 | distinct numbers have distinct decimal numerals |
| `Titles.ReplaceTable` | CODE/bib.py:891-907 | after the replacement table no table codepoint remains, underscores are kept, and table-free text is unchanged |
| `Titles.NormalizeTitle` | CODE/bib.py:890-914 | empty input stays empty; the output has no table codepoint, only single spaces, no space or hyphen at either end, and an underscore exactly when the input has one |
| `Titles.NormalizeTelescope` | CODE/bib.py:909-911 | `"Tele- scope"` normalises to `"Telescope"` |
| `Titles.NormalizeNotIdempotent` | CODE/bib.py:910 | `"a- b- c"` normalises to `"a-b- c"`, which normalises to `"a-b-c"`, so normalisation is not idempotent |
| `Titles.NormalizePlain` | CODE/bib.py:890-914 | a non-empty title with single spaces only, no table character, no hyphen and no question mark normalises to itself |
| `Titles.Rewards` | CODE/bib.py:221-224 | the two rewards together add at most 6 |
| `Titles.Penalties` | CODE/bib.py:225-266 | the penalties together subtract at most 85 |
| `Titles.ScoreTitle` | CODE/bib.py:209-267 | the score is -100 exactly for blank input, and otherwise lies in [-85, 6] |
| `Titles.RewardNeeded` | CODE/bib.py:221-224 | a positive score needs one of the two rewards: 4 to 24 words or 24 to 180 characters |
| `Titles.IsLowQualityTitle` | CODE/bib.py:270-274 | an empty normalised title is low quality; a title that is not has 4 to 24 words or 24 to 180 characters |
| `Titles.NeedsTitleRefresh` | CODE/bib.py:277-297 | an empty normalised title and any title with `_` need a refresh |
| `Titles.VolWordsAreNoise` | CODE/bib.py:285-290 | the volume/issn/pii test of `needs_title_refresh` is subsumed by the noise regex |
| `Candidates.CleanLine` | CODE/bib.py:305 | a cleaned line has single spaces only and no space at either end |
| `Candidates.TextBlocksAreParagraphs` | CODE/bib.py:300-316 | the blocks are the first `max_blocks` maximal runs of non-empty cleaned lines, each block non-empty |
| `Candidates.SplitTextBlocks` | CODE/bib.py:300-316 | the loop with its `current` buffer computes exactly those blocks |
| `Candidates.CollectBlockCandidates` | CODE/bib.py:323-333 | the block loop emits the 1-, 2- and 3-line joins of each block until a section heading |
| `Candidates.CollectTitleLines` | CODE/bib.py:335-345 | the line loop keeps at most 60 non-empty lines and stops at a section heading |
| `Candidates.CollectLineCandidates` | CODE/bib.py:346-349 | each of the first 25 lines is emitted, followed by its join with the next line |
| `Candidates.KeptFrom` | CODE/bib.py:354-359 | the kept candidates are non-empty, come from the prepared list, and have lower-case keys not seen before |
| `Candidates.KeptDistinct` | CODE/bib.py:353-359 | no two kept candidates share a lower-case key |
| `Candidates.KeptCovers` | CODE/bib.py:353-359 | every non-empty prepared candidate has its lower-case key already seen or among the kept ones |
| `Candidates.FirstMaxIsFirstBest` | CODE/bib.py:361-363 | the strict `>` update keeps the first position that attains the maximum |
| `Candidates.ChooseFirstBest` | CODE/bib.py:351-367 | the choice is empty exactly when no kept candidate scores above 0, and otherwise is the earliest kept candidate with the maximal score |
| `Candidates.ChooseTurn` | CODE/bib.py:356-364 | one turn of the loop: an empty or already seen candidate changes nothing, a new one is remembered and replaces the best when it scores strictly higher, so the rest of the loop ends where the whole loop would |
| `Candidates.ChooseLoop` | CODE/bib.py:351-367 | the loop with `seen`, `best` and `best_score` computes that choice |
| `Candidates.GuessTitleFromFirstPage` | CODE/bib.py:319-367 | the whole generator and selection computes the specified title guess |
| `Candidates.PrepareCandidate` | CODE/bib.py:355 | a prepared candidate has no whitespace at either end |
| `Candidates.FileNameTitle` | CODE/bib.py:440 | the filename fallback title contains no underscore |
| `Candidates.ExtractTitle` | CODE/bib.py:428-440 | the five steps in order: an info title that needs no refresh; else a guessed title that needs none; else a non-empty info title; else a non-empty guessed title; else the title made from the file name. A result that needs refresh comes only when neither source gives one that does not, and the result is empty only when both sources are |
| `Candidates.GuessTitleOfEmpty` | CODE/bib.py:319-367 | an empty first page gives no title guess |
| `Candidates.FileNameTitleOfWords` | CODE/bib.py:440 | for a stem of lower-case words joined by single underscores, the file-name title of `stem.pdf` is the stem with each underscore replaced by a space |
| `Candidates.ExtractTitleFallback` | CODE/bib.py:428-440 | with no info title and an empty first page, the title is the one made from the file name |
| `Candidates.ExtractTitleOfWords` | CODE/bib.py:428-440 | with no info title and an empty first page, the title of `stem.pdf` is the stem with underscores replaced by spaces |
| `Identifier.SubNonSlug` | CODE/bib.py:194 | replacing runs of non-`[a-z0-9]` by `_` gives a string over `[a-z0-9_]` with no `__` and the same alphanumerics |
| `Identifier.SlugifyFacts` | CODE/bib.py:192-198 | the slug is over `[a-z0-9_]`, non-empty, without `__` or an outer `_`; it is `"untitled"` when no alphanumeric survives and otherwise at most `max_len` long |
| `Identifier.SlugifyKeeps` | CODE/bib.py:192-198 | when nothing is truncated the slug keeps exactly the lower-cased alphanumerics of the input |
| `Identifier.SlugifyOfSlug` | CODE/bib.py:192-198 | a slug within `max_len` is its own slug |
| `Identifier.SlugifyIdempotent` | CODE/bib.py:192-198 | slugifying a slug changes nothing |
| `Identifier.SlugifySpaced` | CODE/bib.py:192-198 | a text that is a slug within `max_len` with its underscores written as spaces slugifies to that slug |
| `Identifier.SafeYearFacts` | CODE/bib.py:202-204 | the code's year is four digits, and it is the stripped year exactly when that is four digits |
| `Identifier.BuildCodeFacts` | CODE/bib.py:201-206 | the code starts with the safe year and `_`, is itself a slug, and is at most 86 characters |
| `Identifier.BuildCodeOfParts` | CODE/bib.py:201-206 | the code is the safe year, the type slug and the title slug joined by `_` |
| `Identifier.ProbeInjective` | CODE/bib.py:377 | the probes `base`, `base_2`, `base_3`, … are pairwise distinct |
| `Identifier.EnsureAvailableCode` | CODE/bib.py:370-378 | the probing loop returns `FirstFree`: the first of `base`, `base_2`, `base_3`, … that no other file holds |
| `Identifier.FirstFreeFromFacts` | CODE/bib.py:373-378 | the search from probe `n` ends at a free probe `m >= n`, and every probe from `n` up to `m` is held by another file |
| `Identifier.FirstFreeFacts` | CODE/bib.py:370-378 | the code found is free or the document's own name, and every probe before it is held by another file |
| `Identifier.FirstFreeKeepsFreeBase` | CODE/bib.py:371-376 | a free base code is returned unchanged |
| `Identifier.FirstFreeIsFirst` | CODE/bib.py:370-378 | a free probe with every earlier probe taken is the code found |
| `Inference.FindCenturyYear` | CODE/bib.py:384 | `(19\|20)\d{2}` search returns the first match position |
| `Inference.SearchCenturyYear` | CODE/bib.py:384-386 | a found year is four digits starting with 1 or 2 |
| `Inference.FindArxivId` | CODE/bib.py:43 | `ARXIV_RE` search returns the first match position |
| `Inference.FindArxivText` | CODE/bib.py:44 | `ARXIV_TEXT_RE` search returns the first match position |
| `Inference.MaxWordYear` | CODE/bib.py:406-408 | the result is one of the word-bounded years of the text and no such year is larger |
| `Inference.InferYear` | CODE/bib.py:381-410 | the year is always four digits, and it is `"0000"` exactly when all five stages fail |
| `Inference.InferYearFromCreation` | CODE/bib.py:382-386 | stage 1: a year in `CreationDate` wins, and it is the first one there |
| `Inference.InferYearFromArxivName` | CODE/bib.py:388-392 | stage 2: with no year in `CreationDate`, the first arXiv identifier of the file name gives `20` and its first two digits |
| `Inference.InferYearFromArxivText` | CODE/bib.py:394-398 | stage 3: with stages 1 and 2 failing, the first `arXiv:` reference of the text gives `20` and the first two digits of its number |
| `Inference.InferYearFromFileName` | CODE/bib.py:400-403 | stage 4: with stages 1 to 3 failing, the first 19xx/20xx of the file name |
| `Inference.InferYearOfYearStem` | CODE/bib.py:381-403 | with no creation date and no text, a stem starting with a 19xx/20xx year and without a dot gets that year |
| `Inference.InferYearLatest` | CODE/bib.py:405-408 | when only the text stage succeeds, the year is the numeral of the largest year in the text |
| `Inference.InferType` | CODE/bib.py:413-425 | the type is one of the six document types |
| `Inference.InferTypeFirstMatch` | CODE/bib.py:413-425 | each type is returned exactly when its keywords match and no earlier type's keywords do |
| `Inference.InferTypeOfWords` | CODE/bib.py:413-425 | a file named `year_word.pdf` with the title `year word`, where the word is lower-case letters and digits with no type keyword, is an `article` |
| `Inference.ExtractAuthor` | CODE/bib.py:443-444 | the author has no outer whitespace and is empty without an `Author` entry |
| `Inference.ExtractAuthorIdempotent` | CODE/bib.py:443-444 | extracting from an already extracted author gives the same author |
| `Inference.FindDoi` | CODE/bib.py:39 | `DOI_RE` search returns the first match position |
| `Inference.ExtractDoiFacts` | CODE/bib.py:447-452 | the DOI is empty exactly when the text has no match; otherwise it starts `10.`, has only DOI characters and does not end in `.)];,"` |
| `Inference.ExtractDoiIsFull` | CODE/bib.py:40 | an extracted DOI that still has a suffix passes the validator's `DOI_FULL_RE` |
| `Inference.ExtractDoiOfDoi` | CODE/bib.py:447-452 | a clean DOI extracts to itself |
| `Abstracts.CleanAbstractText` | CODE/bib.py:520-531 | the cleaned text has single spaces only, none of ` :;-` at either end, and is empty for blank input |
| `Abstracts.CleanAbstractOfClean` | CODE/bib.py:520-531 | clean text without entities or copyright phrases is its own cleaning |
| `Abstracts.ScanLabelled` | CODE/bib.py:558-572 | every accumulated line is non-empty, no section boundary, no noise line, and after the first no short shouted heading |
| `Abstracts.ScanLabelledWindow` | CODE/bib.py:557-572 | the block is the inline text followed by the stripped non-blank, non-noise lines of a window that ends where the lines run out, at the first blank line after content, at a section line, at a short capitals line after content, or after the line that takes the join over 4000 characters; no earlier line stops it and no earlier line exceeds the cap |
| `Abstracts.ScanStopsAtBlank` | CODE/bib.py:560-562 | a blank line after content ends the abstract |
| `Abstracts.LabelThenLine` | CODE/bib.py:553-573 | a bare label followed by one text line and a blank line yields that line, cleaned, whatever its length |
| `Abstracts.LabelledFrom` | CODE/bib.py:553-578 | a labelled result is non-empty and has no noise or header-start marker |
| `Abstracts.LabelledFromFirst` | CODE/bib.py:553-578 | the labelled scan returns the candidate of the first label line whose block is acceptable, and nothing when no label line qualifies |
| `Abstracts.FirstLabelWins` | CODE/bib.py:553-578 | a qualifying label line with no label line before it gives the labelled result |
| `Abstracts.FirstLabelThenLine` | CODE/bib.py:553-578 | when the first label stands alone, followed by one acceptable text line and a blank line, the labelled result is that line, cleaned |
| `Abstracts.LabelledAbstractWins` | CODE/bib.py:546-578 | for text of that shape `extract_first_text_block` returns the cleaned line: no later label and no text block replaces it |
| `Abstracts.FirstGoodBlock` | CODE/bib.py:580-586 | a fallback result is the cleaned text of a block that is not low quality and has at least 80 characters, every earlier block failing that test; nothing exactly when every block fails it |
| `Abstracts.FirstTextBlockFacts` | CODE/bib.py:546-586 | blank text yields nothing; a labelled abstract, when one qualifies, is the result; otherwise the first good block is; the result is empty exactly when the text is blank or neither exists |
| `Abstracts.CollectBlockLines` | CODE/bib.py:557-572 | the `block_lines` loop computes the specified accumulation |
| `Abstracts.LabelledLoop` | CODE/bib.py:553-578 | the label loop returns the first acceptable labelled abstract |
| `Abstracts.FirstGoodBlockLoop` | CODE/bib.py:580-586 | the block loop returns the first accepted block |
| `Abstracts.ExtractFirstTextBlock` | CODE/bib.py:546-586 | the method computes the specified abstract |
| `Abstracts.GuessAbstractOrder` | CODE/bib.py:589-604 | a non-empty PDF abstract wins; without one (no PDF asked for, none on disk, or one whose text gives nothing) the cleaned notes win when non-empty; then `<Type> focused on <title>.` for book, thesis, slides and poster with a title; the result is empty exactly when all three fail |
| `Keywords.NormalizedRules` | CODE/bib.py:105-116 | every admitted entry yields its rule and every rule comes from an admitted entry with terms |
| `Keywords.NormalizeKeywordConfig` | CODE/bib.py:105-116 | the loop computes those rules |
| `Keywords.MatchedTags` | CODE/bib.py:123-126 | a tag is matched exactly when some rule with that tag has a term in the text |
| `Keywords.Suggestion` | CODE/bib.py:119-127 | empty text gives no tags; the suggestion is empty exactly when nothing non-empty matches |
| `Keywords.RuleHit` | CODE/bib.py:125 | true exactly when some term of the rule, lower-cased, occurs in the lower-cased text |
| `Keywords.MatchedTagsNext` | CODE/bib.py:124-126 | one more rule appends its tag to the matches exactly when it matches |
| `Keywords.SuggestMyKeywords` | CODE/bib.py:119-127 | the loop computes the suggestion |
| `Keywords.SplitTags` | CODE/bib.py:130-134 | the tags are non-empty and contain no `;` or `,` |
| `Keywords.SplitTagsOfJoin` | CODE/bib.py:127-134 | splitting a `", "`-joined list of clean tags gives the list back |
| `Keywords.SuggestionReadsBack` | CODE/bib.py:119-134 | splitting a suggestion gives the sorted distinct matched tags |
| `Bibtex.CloseFrom` | CODE/bib.py:1185-1194 | the brace matcher stops at a `}` or the end, after the opening brace |
| `Bibtex.FieldStep` | CODE/bib.py:1207-1253 | a parsed field has a non-empty lower-case name and the cursor advances |
| `Bibtex.ParseEntriesFacts` | CODE/bib.py:1175-1256 | there are at most as many entries as `@` signs, each has `_key`, and every other field has a lower-case name and a whitespace-collapsed value |
| `Bibtex.OneBracedField` | CODE/bib.py:1206-1253 | the field list `name={value}` gives one field, named by the lower-cased stripped name, holding the stripped value with whitespace runs collapsed |
| `Bibtex.ParseOneEntry` | CODE/bib.py:1175-1256 | `@type{key,name={value}}` parses to exactly one entry: `_key` is the stripped key and the one field holds the collapsed value |
| `Bibtex.OneQuotedField` | CODE/bib.py:1206-1253 | the field list `name="value"` gives one field holding the stripped value with whitespace runs collapsed |
| `Bibtex.OneBareField` | CODE/bib.py:1206-1253 | the field list `name=value` with a bare value (no comma, no newline) gives one field holding the stripped value with whitespace runs collapsed |
| `Bibtex.ParseBracelessEntry` | CODE/bib.py:1175-1256 | an entry `@type{key,fields}` without inner braces parses to exactly one entry: `_key` is the stripped key, followed by the fields the field list gives |
| `Bibtex.ParseOneQuotedEntry` | CODE/bib.py:1175-1256 | `@type{key,name="value"}` parses to exactly one entry with `_key` and the one collapsed field |
| `Bibtex.ParseOneBareEntry` | CODE/bib.py:1175-1256 | `@type{key,name=value}` parses to exactly one entry with `_key` and the one collapsed field |
| `Bibtex.UnclosedEntryStops` | CODE/bib.py:1182-1196 | at an `@` with no `{` after it, or whose braces never close, parsing stops: no further entry is produced |
| `Bibtex.UnclosedEntryDropsRest` | CODE/bib.py:1178-1196 | after an entry whose braces never close, nothing more is parsed, whatever the rest of the text holds |
| `Bibtex.CommaFreeEntrySkipped` | CODE/bib.py:1197-1201 | a braced entry whose body has no comma is skipped: the entries from it are the entries after its closing brace |
| `Bibtex.MatchBrace` | CODE/bib.py:1185-1194 | the depth loop computes the matching brace |
| `Bibtex.ReadValue` | CODE/bib.py:1227-1251 | the value loop reads a braced, quoted or bare value as specified |
| `Bibtex.ParseFields` | CODE/bib.py:1206-1253 | the field loop computes the specified fields |
| `Bibtex.ParseBibtexEntries` | CODE/bib.py:1175-1256 | the entry loop computes the specified entries |
| `BibImport.LastIndexFacts` | CODE/bib.py:1270-1278 | an index holds exactly the non-empty keys, each at its last position |
| `BibImport.BuildIndexes` | CODE/bib.py:1270-1278 | the loop builds the DOI and title indexes as specified |
| `BibImport.MatchIn` | CODE/bib.py:1285-1289 | an entry matches when its DOI or its title key is indexed, and the DOI match wins |
| `BibImport.MatchFacts` | CODE/bib.py:1283-1292 | the matched row is the last row with the entry's DOI, else the last with its title key; no match exactly when neither occurs |
| `BibImport.SetField` | CODE/bib.py:1294-1300 | a field is written exactly when the value is non-empty and either `force` is on or the field is blank |
| `BibImport.SetFieldFills` | CODE/bib.py:1294-1300 | without `force`, a field that is not blank is never changed |
| `BibImport.ApplyEntryFills` | CODE/bib.py:1302-1309 | applying an entry only fills, and an unchanged entry leaves the row as it was |
| `BibImport.ImportFacts` | CODE/bib.py:1280-1312 | every row is only filled, the counts never exceed the entries, and with no update the rows are unchanged |
| `BibImport.ImportBibtex` | CODE/bib.py:1259-1316 | a missing file changes nothing; otherwise the rows are replaced only when some entry updated them |
| `Query.ParseYmd` | CODE/bib.py:703-712 | a parsed date is a valid calendar date |
| `Query.ParseFormat` | CODE/bib.py:703-712 | formatting a valid date and parsing it gives the date back |
| `Query.ParsedIsFormat` | CODE/bib.py:703-712 | a parseable value, stripped, is the canonical format of its date |
| `Query.DateTotal` | CODE/bib.py:760-763 | date order is total and asymmetric |
| `Query.ParseIntOfNat` | CODE/bib.py:742 | `int()` reads back a numeral and its negation |
| `Query.SelectFacts` | CODE/bib.py:766-783 | the selection is the kept elements at strictly increasing positions |
| `Query.SelectLoop` | CODE/bib.py:766-783 | the loop computes the selection |
| `Query.FilteredFacts` | CODE/bib.py:729-783 | every kept row passes every active filter and every passing row is kept; with a date bound kept rows have a valid date; with `unread_only` their `unread` is `"1"` |
| `Query.FilteredOrder` | CODE/bib.py:766-783 | the filtered rows are an order-preserving subsequence of the input |
| `Query.FilterRows` | CODE/bib.py:729-783 | the method computes the filtered rows |
| `Query.UnreadOnlyExample` | CODE/bib.py:780-781 | `unread_only` keeps exactly the row whose `unread` is `"1"` |
| `Query.Insert` | CODE/bib.py:725 | insertion adds exactly one element |
| `Query.SortDated` | CODE/bib.py:725 | sorting is a permutation |
| `Query.InsertOrdered` | CODE/bib.py:725 | insertion after the stable position keeps the order |
| `Query.SortDatedOrdered` | CODE/bib.py:725 | the dated rows end up ordered by date, ties in input order |
| `Query.DatedRowsSplit` | CODE/bib.py:716-723 | dated and undated rows together are the input |
| `Query.SortedByAddedFacts` | CODE/bib.py:715-726 | the result is the dated rows sorted stably by date, then the undated rows in input order, and a permutation of the input |
| `Query.SortRowsByAdded` | CODE/bib.py:715-726 | the method computes that order |
| `Checks.MissingFieldsFacts` | CODE/bib.py:1037 | the missing fields are exactly the blank required ones |
| `Checks.IssuesFacts` | CODE/bib.py:1062-1096 | at most six issues, and none exactly when every row passes every check |
| `Checks.FlaggedFacts` | CODE/bib.py:1036-1060 | a check's list holds exactly the rows that fail it |
| `Checks.ValidateMetadata` | CODE/bib.py:1028-1097 | the method counts the non-empty issue lists |
| `Checks.CountsFacts` | CODE/bib.py:826-831 | the count map holds each non-empty code with its number of occurrences |
| `Checks.CountKeys` | CODE/bib.py:826-831 | the counting loop computes that map |
| `Checks.DuplicateCodesFacts` | CODE/bib.py:826-832 | the duplicate codes are sorted and are exactly the codes two rows share |
| `Checks.DuplicateCodesOf` | CODE/bib.py:826-832 | the method computes those codes |
| `Checks.GroupsFacts` | CODE/bib.py:995-1001 | each non-empty key groups exactly its rows, in order |
| `Checks.DuplicatesFacts` | CODE/bib.py:1003-1025 | the count is the number of shared DOIs plus shared titles, zero exactly when no two rows share a non-empty key |
| `Checks.DedupeMetadata` | CODE/bib.py:991-1025 | the method computes that count |
| `Checks.BadTitlesFacts` | CODE/bib.py:800-806 | bad titles are rows needing refresh; blank titles and titles with `_` are among them |
| `Checks.FindBadTitles` | CODE/bib.py:800-806 | the loop computes the bad titles |
| `Records.InferDoc` | CODE/bib.py:648-654 | the inferred year is four digits and the type one of the six |
| `Records.BaseCodeOfYearWord` | CODE/bib.py:646-656 | for a 19xx/20xx year and a word of at most 55 lower-case letters and digits with no type keyword, a file `year_word.pdf` with no tool output gets the base code `year_article_year_word` |
| `Records.ScannedExampleCode` | tests/test_bib_scan.py:27-45 | `2020_mytest.pdf` with no tool output gets the base code `2020_article_2020_mytest` |
| `Records.AutoTags` | CODE/bib.py:667-669 | a previous record with personal tags gets no suggestion |
| `Records.ScanRow` | CODE/bib.py:670-684 | the row has exactly the store's columns and the new code |
| `Records.ScanRowOverlay` | CODE/bib.py:666-684 | the row is the new-document row overridden by every column of the previous record except `code`, copied verbatim even when empty |
| `Records.ByCode` | CODE/bib.py:455-466 | the store is keyed by non-empty codes, each mapped to a row with that code |
| `Records.RenameKeeps` | CODE/bib.py:659-660 | moving a file to a free name keeps the number of files and the documents |
| `Records.FirstFreeCodesAt` | CODE/bib.py:656-664 | each code of a scan is the first free probe of its file's base code in the directory as the earlier files left it, the file's own name counting as free |
| `Records.CleanTitle` | CODE/bib.py:929-948 | the title is the normalised one unless the PDF is consulted and its title accepted; without `force` a title that needs no refresh is kept; a replacement scores above 0 and, without `force`, beats the old score and needs no refresh |
| `Records.WithTitle` | CODE/bib.py:951-953 | only the title changes, and only to a non-empty title |
| `Records.CleanupBase` | CODE/bib.py:958-962 | the code base starts with the safe year and is a slug |
| `Records.CleanupStepFacts` | CODE/bib.py:928-973 | one row's turn writes the settled title when non-empty, counts exactly a title change, keeps every other field but the code, changes nothing it does not count, leaves codes and files alone without `rename_files` and files alone in a dry run, and keeps the directory's number of files and its documents |
| `Records.CleanupStepCode` | CODE/bib.py:955-973 | with `rename_files`, the new code is the first free probe of the retitled row's base, its own file counting as free; a code update is counted exactly when it differs from the stripped old code; a file is renamed exactly when it exists under the old code and the code differs, into a name no file had |
| `Records.CleanupRunKeeps` | CODE/bib.py:928-973 | the whole pass keeps the directory's number of files and its documents; a dry run or a pass without `rename_files` leaves it unchanged |
| `Records.CleanupRunAt` | CODE/bib.py:928-973 | row `i` is what its own turn makes of it in the directory the earlier rows left |
| `Records.CleanupRunUpdated` | CODE/bib.py:951-953 | the count returned is the number of rows whose title changed |
| `Records.CleanupRunUnchanged` | CODE/bib.py:951-976 | when no title and no code changed every row is as it was, so not saving loses nothing |
| `Records.CleanupTitlesOnly` | CODE/bib.py:928-956 | without `rename_files` each row is the original with its settled title |
| `Records.CleanupCodeAt` | CODE/bib.py:928-973 | with `rename_files`, row `i` has its settled title and, as its code, the first free probe of its base in the directory as the earlier rows left it |
| `Records.Rebuilt` | CODE/bib.py:615-630 | the rebuilt store has exactly the non-empty row codes as keys |
| `Records.RebuiltAt` | CODE/bib.py:615-628 | the entry of the code of a row no earlier row shares is the existing abstract when non-empty and not forced, else the row's guess |
| `Records.RebuiltFirst` | CODE/bib.py:615-628 | the same for every such first row at once |
| `Records.RebuiltKeepsExisting` | CODE/bib.py:620-624 | without `force`, every stored code with a non-empty existing abstract keeps it verbatim |
| `Records.RebuiltFacts` | CODE/bib.py:615-630 | one entry per distinct non-empty code, orphans dropped, the entry coming from the code's first row, and without `force` a non-empty existing abstract kept verbatim |
| `Records.Library.Rename` | CODE/bib.py:659-660 | the document moves to the free name and nothing else changes |
| `Records.Library.PlaceFile` | CODE/bib.py:656-664 | in a dry run the file keeps its name; otherwise its code is `FirstFree` of its base code, its own name counting as free, and the file moves there, never onto another document |
| `Records.Library.ScanFile` | CODE/bib.py:646-684 | the document is placed at the first free probe of its inferred base code (its own name in a dry run) and its merged row built |
| `Records.Library.ScanListing` | CODE/bib.py:646-685 | the rows are the merged rows of the listing, the codes are distinct, each names its own document, the directory keeps its documents, and outside a dry run each code is the first free probe of its base in the directory the earlier files left |
| `Records.Library.ScanPdfs` | CODE/bib.py:639-688 | the stored rows are the scanned rows; a dry run keeps every file name as its code; otherwise each code is the first free probe of its base in the directory the earlier files left |
| `Records.Library.CleanupTitles` | CODE/bib.py:917-988 | the rows and the directory become those of the whole cleanup pass (settled titles, first-free codes, moves into free names); the result counts the changed titles; the rows are stored only when something changed and this is no dry run |
| `Records.Library.CleanupAll` | CODE/bib.py:917-976 | the stored rows and directory of the pass; the directory keeps its files and documents; a dry run stores nothing and moves nothing; without `rename_files` no file moves |
| `Records.Library.CleanupLoop` | CODE/bib.py:928-973 | the loop computes the rows, directory and three counters of the pass |
| `Records.Library.CleanupRow` | CODE/bib.py:929-973 | the loop body computes one row's turn |
| `Records.Library.ImportBibtex` | CODE/bib.py:1259-1316 | the store changes as the import specifies |
| `Records.Library.RebuildAbstracts` | CODE/bib.py:607-636 | the abstracts store becomes the rebuilt store and the rows and directory are unchanged |

## Left out

- Running `pdfinfo` and `pdftotext` (CODE/bib.py:137-189): their outputs are
  the fields of a `Doc`; a missing tool is an empty map or text.
- Loading and saving the CSV and JSON stores, `load_config`,
  `read_csv_header`, `export_metadata`, `stats_metadata`, collections and all
  printing: file-format plumbing. The stores are values held by the
  `Library` class.
- `main` and its argument parsing (CODE/bib.py:1323-1565): command dispatch.
- The file system: `exists`, `resolve`, `rename` and `glob` become the
  directory map, `present`, and a `listing` of distinct stems in the order
  `sorted(glob)` gives, passed in.
- `verify_integrity` beyond the duplicate-code count and the bad-title
  scan: the header, missing-file and orphan checks are file-system queries.
- `CODE/viewer_server.py` is not part of this model: it is an HTTP handler.
- `html.unescape` is modelled for `&amp;`, `&lt;`, `&gt;`, `&quot;` and
  `&#39;` only.
- `date.fromisoformat` is a calendar-validity predicate; `datetime.now` is the
  `today` parameter.
- Python's Unicode `lower`, `upper`, `isalpha`, `isupper`, `isdigit` and `\s`
  are restricted to ASCII.
- Regular expressions are written as predicates, one per pattern.
- Floating-point ratios are integer cross-multiplications:
  `digits*25 > 6*alnum`, `letters*5 < 3*alnum`, `upper*4 > 3*n`,
  `digits*5 > alnum`.
- `Records.Library.CleanupTitles`: in a dry run the model keeps the stored
  rows as they were, because the source changes them only in memory and
  never saves them.
- `Titles.NeedsTitleRefresh`: its contract states only the empty and
  underscore cases; the other triggers are in its body.
- `Titles.IsLowQualityTitle`: its contract states a consequence of the
  threshold, not the threshold itself, which its body gives.
