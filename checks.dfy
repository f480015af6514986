/** The consistency checks over the metadata rows: the per-row checks of
    `validate_metadata` (CODE/bib.py:1028-1097), the duplicate-code count
    and the bad-title scan of `verify_integrity` (CODE/bib.py:800-806,
    826-832), and the DOI and title grouping of `dedupe_metadata`
    (CODE/bib.py:991-1026). */
module Checks {
  import opened Text
  import opened Query
  import Titles
  import Inference
  import BibImport

  // ---------------------------------------------------------------------------
  // validate_metadata
  // ---------------------------------------------------------------------------

  /** `REQUIRED_FIELDS`. */
  function RequiredFields(): seq<string> { ["code", "type", "title", "year"] }

  /** `(row.get(f) or "").strip()`. */
  function Field(row: Row, f: string): string {
    Strip(Get(row, f))
  }

  function BlankIn(row: Row): string -> bool {
    f => Field(row, f) == []
  }

  /** The required fields a row leaves blank, in `REQUIRED_FIELDS` order. */
  function MissingFields(row: Row): seq<string> {
    Select(RequiredFields(), BlankIn(row))
  }

  /** `YEAR_RE`, `^\d{4}$`, on a stripped year. */
  predicate IsYear(s: string) {
    |s| == 4 && IsDigit(s[0]) && IsDigit(s[1]) && IsDigit(s[2]) && IsDigit(s[3])
  }

  /** `code_to_rel_pdf_path(code)`. */
  function PdfPath(code: string): string {
    var c := Strip(code);
    if c == [] then "" else "PDFs/" + c + ".pdf"
  }

  /** The six checks of `validate_metadata`, in the order it reports them. */
  datatype Check = MissingRequired | BadYear | BadDoi | BadUnread | BadAddedAt | MissingFile

  function AllChecks(): seq<Check> { [MissingRequired, BadYear, BadDoi, BadUnread, BadAddedAt, MissingFile] }

  /** Whether a row fails a check; `present` says which library paths
      exist. A blank year, DOI, `unread` or `added_at` passes its check. */
  predicate Fails(c: Check, row: Row, present: string -> bool) {
    match c
    case MissingRequired => MissingFields(row) != []
    case BadYear => Field(row, "year") != [] && !IsYear(Field(row, "year"))
    case BadDoi => Field(row, "doi") != [] && !Inference.IsFullDoi(Field(row, "doi"))
    case BadUnread => Field(row, "unread") != [] && Field(row, "unread") != "1"
    case BadAddedAt => Field(row, "added_at") != [] && ParseYmd(Field(row, "added_at")).None?
    case MissingFile => Field(row, "code") != [] && !present(PdfPath(Field(row, "code")))
  }

  function FailsFor(c: Check, present: string -> bool): Row -> bool {
    row => Fails(c, row, present)
  }

  /** The rows a check reports, in order. */
  function Flagged(rows: seq<Row>, c: Check, present: string -> bool): seq<Row> {
    Select(rows, FailsFor(c, present))
  }

  /** Checking one more row extends each list by that row when it fails. */
  lemma FlaggedSnoc(rows: seq<Row>, i: nat, c: Check, present: string -> bool)
    requires i < |rows|
    ensures Flagged(rows[..i + 1], c, present)
      == Flagged(rows[..i], c, present) + (if Fails(c, rows[i], present) then [rows[i]] else [])
  {
    assert rows[..i + 1][..i] == rows[..i];
  }

  /** The number of non-empty lists. */
  function NonEmpty(lists: seq<seq<Row>>): (n: nat)
    ensures n <= |lists|
    ensures n == 0 <==> forall k | 0 <= k < |lists| :: lists[k] == []
    decreases |lists|
  {
    if lists == [] then 0
    else (if lists[0] != [] then 1 else 0) + NonEmpty(lists[1..])
  }

  /** `validate_metadata(rows)`: the number of checks some row fails. */
  function Issues(rows: seq<Row>, present: string -> bool): nat {
    NonEmpty(seq(6, k requires 0 <= k < 6 => Flagged(rows, AllChecks()[k], present)))
  }

  /** A row misses a required field exactly when one of `code`, `type`,
      `title` and `year` is blank. */
  lemma MissingFieldsFacts(row: Row)
    ensures forall f :: f in MissingFields(row) <==> f in RequiredFields() && Field(row, f) == []
    ensures MissingFields(row) == [] <==>
      Field(row, "code") != [] && Field(row, "type") != [] && Field(row, "title") != [] && Field(row, "year") != []
  {
    SelectMembers(RequiredFields(), BlankIn(row));
    var req := RequiredFields();
    assert req[0] == "code" && req[1] == "type" && req[2] == "title" && req[3] == "year";
    assert forall f :: f in req <==> f == "code" || f == "type" || f == "title" || f == "year";
    if MissingFields(row) != [] {
      assert MissingFields(row)[0] in MissingFields(row);
    }
  }

  /** `validate_metadata` reports at most six issues, and none exactly when
      every row passes every check. */
  lemma IssuesFacts(rows: seq<Row>, present: string -> bool)
    ensures Issues(rows, present) <= 6
    ensures Issues(rows, present) == 0 <==> forall c, row | row in rows :: !Fails(c, row, present)
  {
    var lists := seq(6, k requires 0 <= k < 6 => Flagged(rows, AllChecks()[k], present));
    if Issues(rows, present) == 0 {
      forall c, row | row in rows ensures !Fails(c, row, present) {
        var k := match c
                 case MissingRequired => 0 case BadYear => 1 case BadDoi => 2
                 case BadUnread => 3 case BadAddedAt => 4 case MissingFile => 5;
        assert AllChecks()[k] == c;
        assert lists[k] == [];
        SelectMembers(rows, FailsFor(c, present));
      }
    } else {
      var k :| 0 <= k < 6 && lists[k] != [];
      var c := AllChecks()[k];
      SelectMembers(rows, FailsFor(c, present));
      assert Flagged(rows, c, present)[0] in Flagged(rows, c, present);
    }
  }

  /** Each failure of a row is reported by `validate_metadata`. */
  lemma FlaggedFacts(rows: seq<Row>, c: Check, present: string -> bool)
    ensures forall row | row in Flagged(rows, c, present) :: row in rows && Fails(c, row, present)
    ensures forall row | row in rows && Fails(c, row, present) :: row in Flagged(rows, c, present)
  {
    SelectMembers(rows, FailsFor(c, present));
  }

  /** One check of one row in the loop of `validate_metadata`: the row is
      added to the list of the check it fails. */
  method Report(list: seq<Row>, c: Check, row: Row, present: string -> bool) returns (list': seq<Row>)
    ensures list' == list + (if Fails(c, row, present) then [row] else [])
  {
    list' := list;
    if Fails(c, row, present) {
      list' := list' + [row];
    }
  }

  /** The six lists after the row loop are the lists of the six checks. */
  lemma FlaggedLists(rows: seq<Row>, present: string -> bool)
    ensures [Flagged(rows, MissingRequired, present), Flagged(rows, BadYear, present),
             Flagged(rows, BadDoi, present), Flagged(rows, BadUnread, present),
             Flagged(rows, BadAddedAt, present), Flagged(rows, MissingFile, present)]
      == seq(6, k requires 0 <= k < 6 => Flagged(rows, AllChecks()[k], present))
  {
  }

  /** The row loop of `validate_metadata`, building the six lists, then
      the issue count. */
  method ValidateMetadata(rows: seq<Row>, present: string -> bool) returns (issues: nat)
    ensures issues == Issues(rows, present)
  {
    var missingRequired, badYears, badDois, badUnread, badAddedDates, missingFiles := [], [], [], [], [], [];
    var i := 0;
    while i < |rows|
      invariant i <= |rows|
      invariant missingRequired == Flagged(rows[..i], MissingRequired, present)
      invariant badYears == Flagged(rows[..i], BadYear, present)
      invariant badDois == Flagged(rows[..i], BadDoi, present)
      invariant badUnread == Flagged(rows[..i], BadUnread, present)
      invariant badAddedDates == Flagged(rows[..i], BadAddedAt, present)
      invariant missingFiles == Flagged(rows[..i], MissingFile, present)
    {
      var row := rows[i];
      FlaggedSnoc(rows, i, MissingRequired, present);
      FlaggedSnoc(rows, i, BadYear, present);
      FlaggedSnoc(rows, i, BadDoi, present);
      FlaggedSnoc(rows, i, BadUnread, present);
      FlaggedSnoc(rows, i, BadAddedAt, present);
      FlaggedSnoc(rows, i, MissingFile, present);
      missingRequired := Report(missingRequired, MissingRequired, row, present);
      badYears := Report(badYears, BadYear, row, present);
      badDois := Report(badDois, BadDoi, row, present);
      badUnread := Report(badUnread, BadUnread, row, present);
      badAddedDates := Report(badAddedDates, BadAddedAt, row, present);
      missingFiles := Report(missingFiles, MissingFile, row, present);
      i := i + 1;
    }
    assert rows[..i] == rows;
    var lists := [missingRequired, badYears, badDois, badUnread, badAddedDates, missingFiles];
    FlaggedLists(rows, present);
    issues := CountNonEmpty(lists);
  }

  /** The final count of `validate_metadata`. */
  method CountNonEmpty(lists: seq<seq<Row>>) returns (issues: nat)
    ensures issues == NonEmpty(lists)
  {
    issues := 0;
    var k := 0;
    while k < |lists|
      invariant k <= |lists|
      invariant issues + NonEmpty(lists[k..]) == NonEmpty(lists)
    {
      assert lists[k..][1..] == lists[k + 1..];
      if lists[k] != [] {
        issues := issues + 1;
      }
      k := k + 1;
    }
  }

  // ---------------------------------------------------------------------------
  // Counting and grouping by a key
  // ---------------------------------------------------------------------------

  /** The `code_counts` of `verify_integrity` for the keys `keys`: the
      number of times each non-empty key occurs. */
  function Counts(keys: seq<string>): (m: map<string, nat>)
    decreases |keys|
  {
    if keys == [] then map[]
    else
      var n := |keys| - 1;
      var m := Counts(keys[..n]);
      if keys[n] == [] then m
      else m[keys[n] := (if keys[n] in m then m[keys[n]] else 0) + 1]
  }

  /** A key is counted exactly when it is non-empty and occurs, and its
      count is its number of occurrences. */
  lemma {:induction false} CountsFacts(keys: seq<string>)
    ensures forall k :: k in Counts(keys) <==> k != [] && k in multiset(keys)
    ensures forall k | k in Counts(keys) :: Counts(keys)[k] == multiset(keys)[k]
    decreases |keys|
  {
    if keys != [] {
      var n := |keys| - 1;
      CountsFacts(keys[..n]);
      assert keys == keys[..n] + [keys[n]];
      assert multiset(keys) == multiset(keys[..n]) + multiset{keys[n]};
    }
  }

  /** `(row.get("code") or "").strip()`. */
  function CodeKey(row: Row): string {
    Field(row, "code")
  }

  /** The loop building `code_counts`, with `key` for a row's code. */
  method CountKeys(rows: seq<Row>, key: Row -> string) returns (counts: map<string, nat>)
    ensures counts == Counts(MapSeq(key, rows))
  {
    counts := map[];
    var i := 0;
    while i < |rows|
      invariant i <= |rows|
      invariant counts == Counts(MapSeq(key, rows[..i]))
    {
      var code := key(rows[i]);
      assert MapSeq(key, rows[..i + 1])[..i] == MapSeq(key, rows[..i]);
      if code != [] {
        counts := counts[code := (if code in counts then counts[code] else 0) + 1];
      }
      i := i + 1;
    }
    assert rows[..i] == rows;
  }

  function Repeated(counts: map<string, nat>): string -> bool {
    k => k in counts && counts[k] > 1
  }

  /** `duplicate_codes`: the codes of more than one row, sorted. */
  function DuplicateCodes(rows: seq<Row>): seq<string> {
    var keys := MapSeq(CodeKey, rows);
    SortDistinct(Select(keys, Repeated(Counts(keys))))
  }

  /** Two rows share a non-empty key. */
  predicate Shared(rows: seq<Row>, key: Row -> string, k: string) {
    k != [] && exists i, j | 0 <= i < j < |rows| :: key(rows[i]) == k && key(rows[j]) == k
  }

  /** A key occurring at least twice occurs at two distinct positions. */
  lemma TwiceAt(keys: seq<string>, k: string)
    ensures multiset(keys)[k] > 1 <==> exists i, j | 0 <= i < j < |keys| :: keys[i] == k && keys[j] == k
  {
    if multiset(keys)[k] > 1 {
      assert k in keys;
      var i :| 0 <= i < |keys| && keys[i] == k;
      var rest := keys[..i] + keys[i + 1..];
      assert keys == keys[..i] + [k] + keys[i + 1..];
      assert multiset(keys) == multiset(keys[..i]) + multiset{k} + multiset(keys[i + 1..]);
      assert multiset(rest)[k] > 0;
      assert k in rest;
      var j :| 0 <= j < |rest| && rest[j] == k;
      if j < i {
        assert keys[j] == k;
      } else {
        assert keys[j + 1] == k;
      }
    }
    if exists i, j | 0 <= i < j < |keys| :: keys[i] == k && keys[j] == k {
      var i, j :| 0 <= i < j < |keys| && keys[i] == k && keys[j] == k;
      assert keys == keys[..j] + [k] + keys[j + 1..];
      assert multiset(keys) == multiset(keys[..j]) + multiset{k} + multiset(keys[j + 1..]);
      assert keys[..j][i] == k;
      assert multiset(keys[..j])[k] > 0;
    }
  }

  /** The duplicates `verify_integrity` reports are sorted, and they are
      exactly the non-empty codes that two rows share. */
  lemma DuplicateCodesFacts(rows: seq<Row>)
    ensures StrictlySorted(DuplicateCodes(rows))
    ensures forall c :: c in DuplicateCodes(rows) <==> Shared(rows, CodeKey, c)
  {
    var keys := MapSeq(CodeKey, rows);
    var counts := Counts(keys);
    CountsFacts(keys);
    SelectMembers(keys, Repeated(counts));
    forall c ensures c in DuplicateCodes(rows) <==> Shared(rows, CodeKey, c) {
      TwiceAt(keys, c);
      forall i | 0 <= i < |rows| ensures keys[i] == CodeKey(rows[i]) {
        MapSeqAt(CodeKey, rows, i);
      }
      if c != [] && c in counts {
        assert c in keys;
      }
    }
  }

  /** The `doi_map` and `title_map` of `dedupe_metadata`: the rows of each
      non-empty key, in order. */
  function Groups(rows: seq<Row>, key: Row -> string): (g: map<string, seq<Row>>)
    decreases |rows|
  {
    if rows == [] then map[]
    else
      var n := |rows| - 1;
      var g := Groups(rows[..n], key);
      var k := key(rows[n]);
      if k == [] then g
      else g[k := (if k in g then g[k] else []) + [rows[n]]]
  }

  function HasKeyFor(key: Row -> string, k: string): Row -> bool {
    row => key(row) == k
  }

  /** A non-empty selection keeps some element. */
  lemma SelectNonEmpty<T>(xs: seq<T>, keep: T -> bool)
    requires Select(xs, keep) != []
    ensures exists i | 0 <= i < |xs| :: keep(xs[i])
  {
    SelectMembers(xs, keep);
    var x := Select(xs, keep)[0];
    assert x in Select(xs, keep);
  }

  /** Some row has key `k`. */
  predicate KeyIn(rows: seq<Row>, key: Row -> string, k: string) {
    exists i | 0 <= i < |rows| :: key(rows[i]) == k
  }

  /** A key is grouped exactly when it is non-empty and some row has it, and
      its group is the rows with that key, in order. */
  lemma {:induction false} GroupsFacts(rows: seq<Row>, key: Row -> string)
    ensures forall k :: k in Groups(rows, key) <==> k != [] && KeyIn(rows, key, k)
    ensures forall k | k in Groups(rows, key) :: Groups(rows, key)[k] == Select(rows, HasKeyFor(key, k))
    decreases |rows|
  {
    if rows != [] {
      var n := |rows| - 1;
      var init := rows[..n];
      GroupsFacts(init, key);
      var g := Groups(init, key);
      forall k | k != [] && k !in g ensures Select(init, HasKeyFor(key, k)) == [] {
        SelectMembers(init, HasKeyFor(key, k));
        if Select(init, HasKeyFor(key, k)) != [] {
          SelectNonEmpty(init, HasKeyFor(key, k));
          assert false;
        }
      }
      forall k ensures KeyIn(rows, key, k) <==> KeyIn(init, key, k) || key(rows[n]) == k {
        if KeyIn(rows, key, k) && key(rows[n]) != k {
          var i :| 0 <= i < |rows| && key(rows[i]) == k;
          assert init[i] == rows[i];
        }
        if KeyIn(init, key, k) {
          var i :| 0 <= i < |init| && key(init[i]) == k;
          assert rows[i] == init[i];
        }
      }
    }
  }

  /** The keys `dedupe_metadata` reports: those of more than one row. */
  function DupKeys(g: map<string, seq<Row>>): set<string> {
    set k | k in g && |g[k]| > 1
  }

  /** `dedupe_metadata()`: the number of DOIs and normalised titles that
      more than one row shares. */
  function Duplicates(rows: seq<Row>): nat {
    |DupKeys(Groups(rows, BibImport.DoiKey))| + |DupKeys(Groups(rows, BibImport.TitleKey))|
  }

  /** Two positions picked for key `k` are two rows sharing it. */
  lemma PickedTwiceShared(rows: seq<Row>, key: Row -> string, k: string)
    requires |Picked(rows, HasKeyFor(key, k))| > 1
    ensures exists i, j | 0 <= i < j < |rows| :: key(rows[i]) == k && key(rows[j]) == k
  {
    var ps := Picked(rows, HasKeyFor(key, k));
    SelectFacts(rows, HasKeyFor(key, k));
    var i, j := ps[0], ps[1];
    assert i in ps && j in ps;
    assert HasKeyFor(key, k)(rows[i]) && HasKeyFor(key, k)(rows[j]);
    assert i < j;
  }

  /** Two rows sharing key `k` are two picked positions. */
  lemma SharedPickedTwice(rows: seq<Row>, key: Row -> string, k: string, i: nat, j: nat)
    requires i < j < |rows| && key(rows[i]) == k && key(rows[j]) == k
    ensures |Picked(rows, HasKeyFor(key, k))| > 1
  {
    var ps := Picked(rows, HasKeyFor(key, k));
    SelectFacts(rows, HasKeyFor(key, k));
    assert HasKeyFor(key, k)(rows[i]) && HasKeyFor(key, k)(rows[j]);
    assert i in ps && j in ps;
    var a :| 0 <= a < |ps| && ps[a] == i;
    var b :| 0 <= b < |ps| && ps[b] == j;
    assert a != b;
  }

  /** A key is reported exactly when two rows share it. */
  lemma DupKeysFacts(rows: seq<Row>, key: Row -> string)
    ensures forall k :: k in DupKeys(Groups(rows, key)) <==> Shared(rows, key, k)
  {
    GroupsFacts(rows, key);
    forall k ensures k in DupKeys(Groups(rows, key)) <==> Shared(rows, key, k) {
      var sel := Select(rows, HasKeyFor(key, k));
      var ps := Picked(rows, HasKeyFor(key, k));
      assert |sel| == |ps| by { SelectFacts(rows, HasKeyFor(key, k)); }
      if k in DupKeys(Groups(rows, key)) {
        PickedTwiceShared(rows, key, k);
      }
      if Shared(rows, key, k) {
        var i, j :| 0 <= i < j < |rows| && key(rows[i]) == k && key(rows[j]) == k;
        SharedPickedTwice(rows, key, k, i, j);
        assert KeyIn(rows, key, k);
      }
    }
  }

  /** The keys that two rows share. */
  function SharedKeys(rows: seq<Row>, key: Row -> string): set<string> {
    set k | k in MapSeq(key, rows) && Shared(rows, key, k)
  }

  /** `DupKeys` of the groups is the set of shared keys. */
  lemma DupKeysShared(rows: seq<Row>, key: Row -> string)
    ensures DupKeys(Groups(rows, key)) == SharedKeys(rows, key)
  {
    DupKeysFacts(rows, key);
    forall k | Shared(rows, key, k) ensures k in MapSeq(key, rows) {
      var i, j :| 0 <= i < j < |rows| && key(rows[i]) == k && key(rows[j]) == k;
      MapSeqAt(key, rows, i);
    }
  }

  /** `dedupe_metadata` counts each DOI and each normalised title that two
      rows share, once, and reports none exactly when no two rows share a
      non-empty DOI or title key. */
  lemma DuplicatesFacts(rows: seq<Row>)
    ensures Duplicates(rows) == |SharedKeys(rows, BibImport.DoiKey)| + |SharedKeys(rows, BibImport.TitleKey)|
    ensures Duplicates(rows) == 0 <==>
      forall i, j | 0 <= i < j < |rows| ::
        (BibImport.DoiKey(rows[i]) == [] || BibImport.DoiKey(rows[i]) != BibImport.DoiKey(rows[j]))
        && (BibImport.TitleKey(rows[i]) == [] || BibImport.TitleKey(rows[i]) != BibImport.TitleKey(rows[j]))
  {
    DupKeysShared(rows, BibImport.DoiKey);
    DupKeysShared(rows, BibImport.TitleKey);
    DupKeysFacts(rows, BibImport.DoiKey);
    DupKeysFacts(rows, BibImport.TitleKey);
    var d := DupKeys(Groups(rows, BibImport.DoiKey));
    var t := DupKeys(Groups(rows, BibImport.TitleKey));
    if Duplicates(rows) == 0 {
      forall i, j | 0 <= i < j < |rows|
        ensures (BibImport.DoiKey(rows[i]) == [] || BibImport.DoiKey(rows[i]) != BibImport.DoiKey(rows[j]))
        && (BibImport.TitleKey(rows[i]) == [] || BibImport.TitleKey(rows[i]) != BibImport.TitleKey(rows[j]))
      {
        assert BibImport.DoiKey(rows[i]) !in d;
        assert BibImport.TitleKey(rows[i]) !in t;
      }
    } else {
      if |d| > 0 {
        var k :| k in d;
      } else {
        var k :| k in t;
      }
    }
  }

  /** The grouping loop of `dedupe_metadata`, with `doiKey` and `titleKey`
      for a row's keys, then the count of shared keys. */
  method DedupeLoop(rows: seq<Row>, doiKey: Row -> string, titleKey: Row -> string) returns (duplicates: nat)
    ensures duplicates == |DupKeys(Groups(rows, doiKey))| + |DupKeys(Groups(rows, titleKey))|
  {
    var doiMap: map<string, seq<Row>> := map[];
    var titleMap: map<string, seq<Row>> := map[];
    var i := 0;
    while i < |rows|
      invariant i <= |rows|
      invariant doiMap == Groups(rows[..i], doiKey)
      invariant titleMap == Groups(rows[..i], titleKey)
    {
      var row := rows[i];
      assert rows[..i + 1][..i] == rows[..i];
      var doi := doiKey(row);
      if doi != [] {
        doiMap := doiMap[doi := (if doi in doiMap then doiMap[doi] else []) + [row]];
      }
      var title := titleKey(row);
      if title != [] {
        titleMap := titleMap[title := (if title in titleMap then titleMap[title] else []) + [row]];
      }
      i := i + 1;
    }
    assert rows[..i] == rows;
    var dupDoi := set k | k in doiMap && |doiMap[k]| > 1;
    var dupTitle := set k | k in titleMap && |titleMap[k]| > 1;
    duplicates := |dupDoi| + |dupTitle|;
  }

  /** `dedupe_metadata()` on the stored rows. */
  method DedupeMetadata(rows: seq<Row>) returns (duplicates: nat)
    ensures duplicates == Duplicates(rows)
  {
    duplicates := DedupeLoop(rows, BibImport.DoiKey, BibImport.TitleKey);
  }

  // ---------------------------------------------------------------------------
  // find_bad_titles
  // ---------------------------------------------------------------------------

  function TitleNeedsRefresh(row: Row): bool {
    Titles.NeedsTitleRefresh(Field(row, "title"))
  }

  /** `find_bad_titles(rows)`. */
  function BadTitles(rows: seq<Row>): seq<Row> {
    Select(rows, TitleNeedsRefresh)
  }

  /** Every row with a blank title, or a title with `_`, is a bad title, and
      every reported row needs a title refresh. */
  lemma BadTitlesFacts(rows: seq<Row>)
    ensures forall row | row in BadTitles(rows) :: row in rows && TitleNeedsRefresh(row)
    ensures forall row | row in rows && (Field(row, "title") == [] || '_' in Field(row, "title")) :: row in BadTitles(rows)
  {
    SelectMembers(rows, TitleNeedsRefresh);
    forall row | row in rows && Field(row, "title") == [] ensures TitleNeedsRefresh(row) {
      assert Titles.NormalizeTitle(Field(row, "title")) == [];
    }
  }

  /** The loop of `find_bad_titles`. */
  method FindBadTitles(rows: seq<Row>) returns (bad: seq<Row>)
    ensures bad == BadTitles(rows)
  {
    bad := SelectLoop(rows, TitleNeedsRefresh);
  }

  /** The duplicate-code step of `verify_integrity`: `code_counts`, then
      the sorted codes counted more than once. */
  method DuplicateCodesOf(rows: seq<Row>) returns (duplicates: seq<string>)
    ensures duplicates == DuplicateCodes(rows)
  {
    var codeCounts := CountKeys(rows, CodeKey);
    var keys := MapSeq(CodeKey, rows);
    var repeated := SelectLoop(keys, Repeated(codeCounts));
    duplicates := SortDistinct(repeated);
  }
}
