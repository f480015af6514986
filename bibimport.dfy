/** `import_bibtex` (CODE/bib.py:1259-1316): BibTeX entries are matched to
    metadata rows by DOI, then by normalised title, and fill the matched
    row's bibliographic fields. The indexes are built once, before any
    entry is applied, and point at the rows themselves: an index here maps
    a key to the position of the last row that has it, and an entry updates
    the row at that position, so a later entry matching the same row sees
    the earlier entry's writes. */
module BibImport {
  import opened Wrappers
  import opened Text
  import opened Titles
  import opened Bibtex

  /** A metadata record, keyed by column name. */
  type Row = map<string, string>

  /** The fields an entry may fill. */
  function ImportFields(): set<string> { {"title", "year", "doi", "author", "journal"} }

  // ---------------------------------------------------------------------------
  // The indexes
  // ---------------------------------------------------------------------------

  /** A row's DOI key: `(row.get("doi") or "").strip().lower()`. */
  function DoiKey(row: Row): string {
    Lower(Strip(Get(row, "doi")))
  }

  /** A row's title key: `normalize_title_text(row.get("title", "")).lower()`. */
  function TitleKey(row: Row): string {
    Lower(NormalizeTitle(Get(row, "title")))
  }

  /** `index[key] = position` for every non-empty key in order, so that the
      last position of a key wins. */
  function LastIndex(keys: seq<string>): (idx: map<string, nat>)
    ensures forall k | k in idx :: idx[k] < |keys|
    decreases |keys|
  {
    if keys == [] then map[]
    else
      var n := |keys| - 1;
      var idx := LastIndex(keys[..n]);
      if keys[n] == [] then idx else idx[keys[n] := n]
  }

  /** An index holds exactly the non-empty keys, each at its last position. */
  lemma {:induction false} LastIndexFacts(keys: seq<string>)
    ensures var idx := LastIndex(keys);
      forall k :: k in idx <==> k != [] && k in keys
    ensures var idx := LastIndex(keys);
      forall k | k in idx :: keys[idx[k]] == k && forall j | idx[k] < j < |keys| :: keys[j] != k
    decreases |keys|
  {
    if keys != [] {
      var n := |keys| - 1;
      LastIndexFacts(keys[..n]);
      assert keys == keys[..n] + [keys[n]];
      forall k ensures k in keys <==> k in keys[..n] || k == keys[n] {
        if k in keys {
          var j :| 0 <= j < |keys| && keys[j] == k;
          if j < n {
            assert keys[..n][j] == k;
          }
        }
      }
    }
  }

  /** The index loop over the rows, with `doiKey` and `titleKey` for the
      two keys of a row. */
  method BuildIndexes(rows: seq<Row>, doiKey: Row -> string, titleKey: Row -> string)
    returns (doiIndex: map<string, nat>, titleIndex: map<string, nat>)
    ensures doiIndex == LastIndex(MapSeq(doiKey, rows))
    ensures titleIndex == LastIndex(MapSeq(titleKey, rows))
  {
    doiIndex, titleIndex := map[], map[];
    var i := 0;
    while i < |rows|
      invariant i <= |rows|
      invariant doiIndex == LastIndex(MapSeq(doiKey, rows[..i]))
      invariant titleIndex == LastIndex(MapSeq(titleKey, rows[..i]))
    {
      var doi := doiKey(rows[i]);
      if doi != [] {
        doiIndex := doiIndex[doi := i];
      }
      var title := titleKey(rows[i]);
      if title != [] {
        titleIndex := titleIndex[title := i];
      }
      assert MapSeq(doiKey, rows[..i + 1])[..i] == MapSeq(doiKey, rows[..i]);
      assert MapSeq(titleKey, rows[..i + 1])[..i] == MapSeq(titleKey, rows[..i]);
      i := i + 1;
    }
    assert rows[..i] == rows;
  }

  // ---------------------------------------------------------------------------
  // Matching and applying one entry
  // ---------------------------------------------------------------------------

  /** An entry's DOI key: `(entry.get("doi") or "").strip().lower()`. */
  function EntryDoi(entry: Entry): string {
    Lower(Strip(Get(entry, "doi")))
  }

  /** An entry's title: `normalize_title_text(entry.get("title", ""))`. */
  function EntryTitle(entry: Entry): string {
    NormalizeTitle(Get(entry, "title"))
  }

  /** The row an entry goes to: the DOI index when the entry's DOI is in
      it, otherwise the title index, otherwise none. */
  function MatchIn(doi: string, title: string, doiIndex: map<string, nat>, titleIndex: map<string, nat>): (p: Option<nat>)
    ensures p.Some? <==> (doi != [] && doi in doiIndex) || (title != [] && Lower(title) in titleIndex)
    ensures p.Some? && doi != [] && doi in doiIndex ==> p.value == doiIndex[doi]
    ensures p.Some? && !(doi != [] && doi in doiIndex) ==> p.value == titleIndex[Lower(title)]
  {
    if doi != [] && doi in doiIndex then Some(doiIndex[doi])
    else if title != [] && Lower(title) in titleIndex then Some(titleIndex[Lower(title)])
    else None
  }

  /** `set_field`: the value is written when it is non-empty and the row's
      field is blank or `force` holds; the flag says whether it was written. */
  function SetField(row: Row, f: string, value: string, force: bool): (r: (Row, bool))
    ensures r.1 <==> value != [] && (force || Strip(Get(row, f)) == [])
    ensures r.1 ==> r.0 == row[f := value]
    ensures !r.1 ==> r.0 == row
  {
    if value == [] then (row, false)
    else if force || Strip(Get(row, f)) == [] then (row[f := value], true)
    else (row, false)
  }

  /** The five `set_field` calls of one entry on its row, `changed` being
      whether any of them wrote. */
  function ApplyEntry(row: Row, entry: Entry, title: string, force: bool): (r: (Row, bool))
  {
    var a := SetField(row, "title", title, force);
    var b := SetField(a.0, "year", Get(entry, "year"), force);
    var c := SetField(b.0, "doi", Get(entry, "doi"), force);
    var d := SetField(c.0, "author", Get(entry, "author"), force);
    var e := SetField(d.0, "journal", Get(entry, "journal"), force);
    (e.0, a.1 || b.1 || c.1 || d.1 || e.1)
  }

  /** The state of the entry loop: the rows, `updated` and `unmatched`. */
  datatype Progress = Progress(rows: seq<Row>, updated: nat, unmatched: nat)

  /** One entry of the loop. */
  function ImportOne(s: Progress, entry: Entry, doiIndex: map<string, nat>, titleIndex: map<string, nat>,
                     force: bool): (s': Progress)
    requires forall k | k in doiIndex :: doiIndex[k] < |s.rows|
    requires forall k | k in titleIndex :: titleIndex[k] < |s.rows|
    ensures |s'.rows| == |s.rows|
  {
    var title := EntryTitle(entry);
    match MatchIn(EntryDoi(entry), title, doiIndex, titleIndex)
    case None => Progress(s.rows, s.updated, s.unmatched + 1)
    case Some(p) =>
      var r := ApplyEntry(s.rows[p], entry, title, force);
      Progress(s.rows[p := r.0], if r.1 then s.updated + 1 else s.updated, s.unmatched)
  }

  /** The entry loop over `entries`, from `s`. */
  function ImportAll(s: Progress, entries: seq<Entry>, doiIndex: map<string, nat>, titleIndex: map<string, nat>,
                     force: bool): (s': Progress)
    requires forall k | k in doiIndex :: doiIndex[k] < |s.rows|
    requires forall k | k in titleIndex :: titleIndex[k] < |s.rows|
    ensures |s'.rows| == |s.rows|
    decreases |entries|
  {
    if entries == [] then s
    else
      var n := |entries| - 1;
      var before := ImportAll(s, entries[..n], doiIndex, titleIndex, force);
      ImportOne(before, entries[n], doiIndex, titleIndex, force)
  }

  /** `import_bibtex` on the stored rows and the file's entries: both
      indexes of the rows, then the entry loop from zero counts. */
  function Import(rows: seq<Row>, entries: seq<Entry>, force: bool): (s: Progress)
    ensures |s.rows| == |rows|
  {
    var keys := MapSeq(DoiKey, rows);
    var titles := MapSeq(TitleKey, rows);
    ImportAll(Progress(rows, 0, 0), entries, LastIndex(keys), LastIndex(titles), force)
  }

  // ---------------------------------------------------------------------------
  // What an import guarantees
  // ---------------------------------------------------------------------------

  /** `after` is `before` with some fields of `ImportFields` set to
      non-empty values: nothing else changes, nothing is blanked, and
      without `force` no non-blank field is overwritten. */
  predicate Filled(before: Row, after: Row, force: bool) {
    && before.Keys <= after.Keys
    && (forall f | f in after && f !in ImportFields() :: f in before && after[f] == before[f])
    && (forall f | f in after && (f !in before || after[f] != before[f]) :: after[f] != [])
    && (!force ==> forall f | f in before && Strip(before[f]) != [] :: after[f] == before[f])
  }

  lemma FilledTrans(a: Row, b: Row, c: Row, force: bool)
    requires Filled(a, b, force) && Filled(b, c, force)
    ensures Filled(a, c, force)
  {
  }

  /** Each `set_field` call fills the row. */
  lemma SetFieldFills(row: Row, f: string, value: string, force: bool)
    requires f in ImportFields()
    ensures Filled(row, SetField(row, f, value, force).0, force)
  {
  }

  /** An entry fills its row, and changes it only when `changed` is set. */
  lemma ApplyEntryFills(row: Row, entry: Entry, title: string, force: bool)
    ensures var r := ApplyEntry(row, entry, title, force);
      Filled(row, r.0, force) && (!r.1 ==> r.0 == row)
  {
    var a := SetField(row, "title", title, force);
    var b := SetField(a.0, "year", Get(entry, "year"), force);
    var c := SetField(b.0, "doi", Get(entry, "doi"), force);
    var d := SetField(c.0, "author", Get(entry, "author"), force);
    var e := SetField(d.0, "journal", Get(entry, "journal"), force);
    SetFieldFills(row, "title", title, force);
    SetFieldFills(a.0, "year", Get(entry, "year"), force);
    SetFieldFills(b.0, "doi", Get(entry, "doi"), force);
    SetFieldFills(c.0, "author", Get(entry, "author"), force);
    SetFieldFills(d.0, "journal", Get(entry, "journal"), force);
    FilledTrans(row, a.0, b.0, force);
    FilledTrans(row, b.0, c.0, force);
    FilledTrans(row, c.0, d.0, force);
    FilledTrans(row, d.0, e.0, force);
  }

  /** Every row of `after` fills the row of `before` at its position. */
  predicate AllFilled(before: seq<Row>, after: seq<Row>, force: bool) {
    |after| == |before| && forall i | 0 <= i < |before| :: Filled(before[i], after[i], force)
  }

  lemma AllFilledTrans(a: seq<Row>, b: seq<Row>, c: seq<Row>, force: bool)
    requires AllFilled(a, b, force) && AllFilled(b, c, force)
    ensures AllFilled(a, c, force)
  {
    forall i | 0 <= i < |a| ensures Filled(a[i], c[i], force) {
      FilledTrans(a[i], b[i], c[i], force);
    }
  }

  /** One entry only fills rows, is counted at most once, and leaves the
      rows as they were when it updates none. */
  lemma ImportOneFacts(s: Progress, entry: Entry, doiIndex: map<string, nat>,
                       titleIndex: map<string, nat>, force: bool)
    requires forall k | k in doiIndex :: doiIndex[k] < |s.rows|
    requires forall k | k in titleIndex :: titleIndex[k] < |s.rows|
    ensures var r := ImportOne(s, entry, doiIndex, titleIndex, force);
      && AllFilled(s.rows, r.rows, force)
      && r.updated + r.unmatched <= s.updated + s.unmatched + 1
      && s.updated <= r.updated
      && (r.updated == s.updated ==> r.rows == s.rows)
  {
    var title := EntryTitle(entry);
    var r := ImportOne(s, entry, doiIndex, titleIndex, force);
    match MatchIn(EntryDoi(entry), title, doiIndex, titleIndex)
    case None =>
      assert r.rows == s.rows;
      assert AllFilled(s.rows, s.rows, force);
    case Some(p) =>
      var a := ApplyEntry(s.rows[p], entry, title, force);
      assert r.rows == s.rows[p := a.0];
      assert Filled(s.rows[p], a.0, force) && (!a.1 ==> a.0 == s.rows[p]) by {
        ApplyEntryFills(s.rows[p], entry, title, force);
      }
      AllFilledUpdate(s.rows, p, a.0, force);
  }

  /** Filling one row fills the sequence; an unchanged row leaves it as
      it was. */
  lemma AllFilledUpdate(rows: seq<Row>, p: nat, row: Row, force: bool)
    requires p < |rows| && Filled(rows[p], row, force)
    ensures AllFilled(rows, rows[p := row], force)
    ensures row == rows[p] ==> rows[p := row] == rows
  {
    var after := rows[p := row];
    forall i | 0 <= i < |rows| ensures Filled(rows[i], after[i], force) {
      if i != p {
        assert after[i] == rows[i];
      }
    }
  }

  /** The entry loop only fills rows; every entry is counted at most once,
      as updated or as unmatched; and when no entry updated a row, the rows
      are as they were. */
  lemma {:induction false} ImportAllFacts(s: Progress, entries: seq<Entry>, doiIndex: map<string, nat>,
                                          titleIndex: map<string, nat>, force: bool)
    requires forall k | k in doiIndex :: doiIndex[k] < |s.rows|
    requires forall k | k in titleIndex :: titleIndex[k] < |s.rows|
    ensures var r := ImportAll(s, entries, doiIndex, titleIndex, force);
      && AllFilled(s.rows, r.rows, force)
      && r.updated + r.unmatched <= s.updated + s.unmatched + |entries|
      && s.updated <= r.updated
      && (r.updated == s.updated ==> r.rows == s.rows)
    decreases |entries|
  {
    if entries == [] {
      assert AllFilled(s.rows, s.rows, force);
    } else {
      var n := |entries| - 1;
      var before := ImportAll(s, entries[..n], doiIndex, titleIndex, force);
      var after := ImportOne(before, entries[n], doiIndex, titleIndex, force);
      assert after == ImportAll(s, entries, doiIndex, titleIndex, force);
      ImportAllFacts(s, entries[..n], doiIndex, titleIndex, force);
      ImportOneFacts(before, entries[n], doiIndex, titleIndex, force);
      AllFilledTrans(s.rows, before.rows, after.rows, force);
    }
  }

  /** What `import_bibtex` does to the stored rows: it fills some of their
      bibliographic fields and nothing else, never blanks or (without
      `force`) overwrites a field, counts each entry at most once, and
      leaves the rows as they were when it reports no update. */
  lemma ImportFacts(rows: seq<Row>, entries: seq<Entry>, force: bool)
    ensures var r := Import(rows, entries, force);
      && AllFilled(rows, r.rows, force)
      && r.updated + r.unmatched <= |entries|
      && (r.updated == 0 ==> r.rows == rows)
  {
    ImportAllFacts(Progress(rows, 0, 0), entries, LastIndex(MapSeq(DoiKey, rows)),
                   LastIndex(MapSeq(TitleKey, rows)), force);
  }

  /** The position `MatchIn` finds under indexes of the key sequences
      `keys` and `titles`: the last DOI key equal to `doi` when there is
      one, otherwise the last title key equal to `key`. */
  lemma MatchKeys(keys: seq<string>, titles: seq<string>, doi: string, title: string)
    requires |keys| == |titles|
    ensures var p := MatchIn(doi, title, LastIndex(keys), LastIndex(titles));
      var key := Lower(title);
      && (p.None? <==> (doi == [] || doi !in keys) && (key == [] || key !in titles))
      && (p.Some? ==> p.value < |keys|)
      && (p.Some? && doi != [] && doi in keys ==>
            keys[p.value] == doi && forall j | p.value < j < |keys| :: keys[j] != doi)
      && (p.Some? && (doi == [] || doi !in keys) ==>
            titles[p.value] == key && forall j | p.value < j < |titles| :: titles[j] != key)
  {
    LastIndexFacts(keys);
    LastIndexFacts(titles);
    LowerEmpty(title);
  }

  /** The row an entry is applied to is the last row with the entry's DOI
      when any row has it, and otherwise the last row with the entry's
      title key; an entry whose keys no row has is unmatched. */
  lemma MatchFacts(rows: seq<Row>, entry: Entry)
    ensures var p := MatchIn(EntryDoi(entry), EntryTitle(entry),
                             LastIndex(MapSeq(DoiKey, rows)), LastIndex(MapSeq(TitleKey, rows)));
      var doi, key := EntryDoi(entry), Lower(EntryTitle(entry));
      && (p.None? <==> (doi == [] || !HasKey(rows, DoiKey, doi)) && (key == [] || !HasKey(rows, TitleKey, key)))
      && (p.Some? ==> p.value < |rows|)
      && (p.Some? && doi != [] && HasKey(rows, DoiKey, doi) ==>
            DoiKey(rows[p.value]) == doi && forall j | p.value < j < |rows| :: DoiKey(rows[j]) != doi)
      && (p.Some? && (doi == [] || !HasKey(rows, DoiKey, doi)) ==>
            TitleKey(rows[p.value]) == key && forall j | p.value < j < |rows| :: TitleKey(rows[j]) != key)
  {
    var doi, title := EntryDoi(entry), EntryTitle(entry);
    MatchKeys(MapSeq(DoiKey, rows), MapSeq(TitleKey, rows), doi, title);
    HasKeyIn(rows, DoiKey, doi);
    HasKeyIn(rows, TitleKey, Lower(title));
  }

  /** Some row has `k` as its `key`. */
  predicate HasKey(rows: seq<Row>, key: Row -> string, k: string) {
    exists i | 0 <= i < |rows| :: key(rows[i]) == k
  }

  lemma HasKeyIn(rows: seq<Row>, key: Row -> string, k: string)
    ensures HasKey(rows, key, k) <==> k in MapSeq(key, rows)
    ensures forall i | 0 <= i < |rows| :: MapSeq(key, rows)[i] == key(rows[i])
  {
    var ks := MapSeq(key, rows);
    if HasKey(rows, key, k) {
      var i :| 0 <= i < |rows| && key(rows[i]) == k;
      assert ks[i] == k;
    }
  }

  lemma LowerEmpty(s: string)
    ensures (Lower(s) == []) == (s == [])
  {
  }

  // ---------------------------------------------------------------------------
  // The loop of import_bibtex
  // ---------------------------------------------------------------------------

  /** The entry loop of `import_bibtex`, on the rows `rows` and the indexes
      built from them. */
  method ImportEntries(rows: seq<Row>, entries: seq<Entry>, doiIndex: map<string, nat>, titleIndex: map<string, nat>,
                       force: bool) returns (s: Progress)
    requires forall k | k in doiIndex :: doiIndex[k] < |rows|
    requires forall k | k in titleIndex :: titleIndex[k] < |rows|
    ensures s == ImportAll(Progress(rows, 0, 0), entries, doiIndex, titleIndex, force)
  {
    s := Progress(rows, 0, 0);
    var i := 0;
    while i < |entries|
      invariant i <= |entries|
      invariant |s.rows| == |rows|
      invariant s == ImportAll(Progress(rows, 0, 0), entries[..i], doiIndex, titleIndex, force)
    {
      ImportAllNext(Progress(rows, 0, 0), entries, i, doiIndex, titleIndex, force);
      s := ImportEntry(s, entries[i], doiIndex, titleIndex, force);
      i := i + 1;
    }
    assert entries[..i] == entries;
  }

  /** The loop over one more entry is one more `ImportOne`. */
  lemma ImportAllNext(s: Progress, entries: seq<Entry>, i: nat, doiIndex: map<string, nat>,
                      titleIndex: map<string, nat>, force: bool)
    requires i < |entries|
    requires forall k | k in doiIndex :: doiIndex[k] < |s.rows|
    requires forall k | k in titleIndex :: titleIndex[k] < |s.rows|
    ensures ImportAll(s, entries[..i + 1], doiIndex, titleIndex, force)
         == ImportOne(ImportAll(s, entries[..i], doiIndex, titleIndex, force), entries[i], doiIndex, titleIndex, force)
  {
    assert entries[..i + 1][..i] == entries[..i];
  }

  /** One entry of `import_bibtex`: the matched row gets the five fields,
      or the entry counts as unmatched. */
  method ImportEntry(s: Progress, entry: Entry, doiIndex: map<string, nat>, titleIndex: map<string, nat>,
                     force: bool) returns (s': Progress)
    requires forall k | k in doiIndex :: doiIndex[k] < |s.rows|
    requires forall k | k in titleIndex :: titleIndex[k] < |s.rows|
    ensures s' == ImportOne(s, entry, doiIndex, titleIndex, force)
  {
    var title := EntryTitle(entry);
    var doi := EntryDoi(entry);
    var row := MatchIn(doi, title, doiIndex, titleIndex);
    if row.None? {
      return s.(unmatched := s.unmatched + 1);
    }
    var r := ApplyEntry(s.rows[row.value], entry, title, force);
    s' := s.(rows := s.rows[row.value := r.0]);
    if r.1 {
      s' := s'.(updated := s'.updated + 1);
    }
  }

  /** `import_bibtex` on the stored rows: `text` is the file's text, or
      none when the file does not exist. The rows are replaced (saved) only
      when some entry updated a row. */
  method ImportBibtex(rows: seq<Row>, text: Option<string>, force: bool) returns (rows': seq<Row>, updated: nat)
    ensures text.None? ==> rows' == rows && updated == 0
    ensures text.Some? ==> var r := Import(rows, ParseEntries(text.value), force);
      updated == r.updated && rows' == (if r.updated > 0 then r.rows else rows)
  {
    rows', updated := rows, 0;
    if text.None? {
      return;
    }
    var entries := ParseBibtexEntries(text.value);
    if entries == [] {
      return;
    }
    var doiIndex, titleIndex := BuildIndexes(rows, DoiKey, TitleKey);
    var s := ImportEntries(rows, entries, doiIndex, titleIndex, force);
    updated := s.updated;
    if updated > 0 {
      rows' := s.rows;
    }
  }
}
