/** The bibliography's records and their reconciliation with the library:
    the rows `scan_pdfs` builds from the PDF directory, the title and code
    clean-up of `cleanup_titles`, and the abstracts store rebuilt by
    `rebuild_abstracts`. The PDF directory is a map from file stems to the
    documents the extraction tools see; renaming a file moves a document to
    a new stem. */
module Records {
  import opened Wrappers
  import opened Text
  import opened Titles
  import opened Identifier
  import opened Inference
  import Candidates
  import Abstracts
  import Keywords
  import Bibtex
  import BibImport

  /** A metadata record, a CSV row keyed by column name. Whether a column is
      present matters: `prev.get(field, default)` keeps a present column even
      when it is empty. */
  type Row = map<string, string>

  /** The columns of the metadata store (CODE/bib.py:23-37). */
  function Fields(): seq<string> { ["code", "type", "title", "journal", "year", "doi", "author",
                                "keywords", "my_keywords", "star", "unread", "added_at", "notes"] }

  function FieldSet(): set<string> { {"code", "type", "title", "journal", "year", "doi", "author",
                                   "keywords", "my_keywords", "star", "unread", "added_at", "notes"} }

  /** A PDF in the library directory as the extraction tools see it: the
      `pdfinfo` entries, the text of the first page and the full text. */
  datatype Doc = Doc(info: map<string, string>, firstPage: string, fullText: string)

  /** `(row.get(f) or "").strip()`. */
  function Field(row: Row, f: string): string {
    Strip(Get(row, f))
  }

  predicate Blank(row: Row, f: string) {
    Field(row, f) == []
  }

  // ---------------------------------------------------------------------------
  // The row `scan_pdfs` builds for one document (CODE/bib.py:643-684)
  // ---------------------------------------------------------------------------

  /** What is inferred about one document. */
  datatype Inferred = Inferred(docType: string, title: string, year: string, doi: string, author: string)

  /** The inference steps of `scan_pdfs` for the file `name.pdf`. */
  function InferDoc(name: string, doc: Doc): (inf: Inferred)
    ensures IsFourDigits(inf.year)
    ensures inf.docType in DocTypes()
  {
    var filename := name + ".pdf";
    var title := Candidates.ExtractTitle(doc.info, doc.firstPage, filename);
    Inferred(InferType(filename, doc.info, title), title, InferYear(filename, doc.info, doc.firstPage),
             ExtractDoi(doc.firstPage), ExtractAuthor(doc.info))
  }

  /** The code a document would receive before collisions are resolved. */
  function BaseCode(inf: Inferred): string {
    BuildCode(inf.year, inf.docType, inf.title)
  }

  /** A file `{y}_{w}.pdf` from which the tools read nothing (no `pdfinfo`
      entries, no text), named by a 19xx/20xx year and a word over
      `[a-z0-9]` in which no type keyword occurs, is an article of that year
      titled `{y} {w}`, so its code is `{y}_article_{y}_{w}`. */
  lemma BaseCodeOfYearWord(y: string, w: string)
    requires |y| == 4 && CenturyYearAt(y, 0)
    requires w != [] && |w| <= 55 && forall k | 0 <= k < |w| :: IsLowerChar(w[k]) || IsDigit(w[k])
    requires !SaysThesis(w) && !SaysSlides(w) && !SaysPoster(w) && !SaysArxiv(w) && !SaysBook(w)
    ensures BaseCode(InferDoc(y + "_" + w, Doc(map[], "", ""))) == y + "_article_" + y + "_" + w
  {
    var inf := InferDoc(y + "_" + w, Doc(map[], "", ""));
    InferDocOfYearWord(y, w);
    assert BaseCode(inf) == BuildCode(y, "article", y + " " + w);
    YearWordCode(y, w);
    ArticleInfix(y, w);
  }

  lemma ArticleInfix(y: string, w: string)
    ensures y + "_" + "article" + "_" + (y + "_" + w) == y + "_article_" + y + "_" + w
  {
    var m := "_" + "article" + "_";
    assert m == "_article_";
    assert y + "_" + "article" + "_" + (y + "_" + w) == y + m + (y + "_" + w);
    assert y + "_article_" + y + "_" + w == y + m + (y + "_" + w);
  }

  /** What is inferred about such a file: an article of the year `y`
      titled `{y} {w}`. */
  lemma InferDocOfYearWord(y: string, w: string)
    requires |y| == 4 && CenturyYearAt(y, 0)
    requires w != [] && forall k | 0 <= k < |w| :: IsLowerChar(w[k]) || IsDigit(w[k])
    requires !SaysThesis(w) && !SaysSlides(w) && !SaysPoster(w) && !SaysArxiv(w) && !SaysBook(w)
    ensures var inf := InferDoc(y + "_" + w, Doc(map[], "", ""));
      inf.docType == "article" && inf.title == y + " " + w && inf.year == y
  {
    var stem := y + "_" + w;
    YearWordStem(y, w);
    Candidates.ExtractTitleOfWords(stem);
    InferYearOfYearStem(stem);
    InferTypeOfWords(y, w);
  }

  /** The stem `{y}_{w}`: digits, one underscore, then the word. */
  lemma YearWordStem(y: string, w: string)
    requires |y| == 4 && CenturyYearAt(y, 0)
    requires w != [] && forall k | 0 <= k < |w| :: IsLowerChar(w[k]) || IsDigit(w[k])
    ensures var stem := y + "_" + w;
      && stem[0] != '_' && stem[|stem| - 1] != '_' && stem[..4] == y && CenturyYearAt(stem, 0) && '.' !in stem
      && (forall k | 0 <= k < |y| :: IsDigit(y[k]))
      && (forall k | 0 <= k < |stem| :: IsLowerChar(stem[k]) || IsDigit(stem[k]) || stem[k] == '_')
      && (forall k | 1 <= k < |stem| :: stem[k - 1] != '_' || stem[k] != '_')
      && Candidates.ReplaceAll(stem, '_', ' ') == y + " " + w
  {
    var stem := y + "_" + w;
    assert forall k | 0 <= k < |stem| :: stem[k] == (if k < 4 then y[k] else if k == 4 then '_' else w[k - 5]);
    assert Candidates.ReplaceAll(stem, '_', ' ') == y + " " + w;
  }

  /** The code of an article of the year `y` titled `{y} {w}`. */
  lemma YearWordCode(y: string, w: string)
    requires |y| == 4 && CenturyYearAt(y, 0)
    requires w != [] && |w| <= 55 && forall k | 0 <= k < |w| :: IsLowerChar(w[k]) || IsDigit(w[k])
    ensures BuildCode(y, "article", y + " " + w) == y + "_" + "article" + "_" + (y + "_" + w)
  {
    YearSlugPart(y);
    ArticleSlugPart();
    SpacedSlugPart(y, w);
    BuildCodeOfParts(y, "article", y + " " + w, y, "article", y + "_" + w);
  }

  lemma YearSlugPart(y: string)
    requires |y| == 4 && CenturyYearAt(y, 0)
    ensures SafeYear(y) == y && forall k | 0 <= k < 4 :: IsDigit(y[k])
  {
    StripUnchanged(y);
  }

  lemma ArticleSlugPart()
    ensures Strip("article") == "article" && Slugify("article", 20) == "article"
  {
    StripUnchanged("article");
    assert IsSlug("article");
    SlugifyOfSlug("article", 20);
  }

  lemma SpacedSlugPart(y: string, w: string)
    requires |y| == 4 && forall k | 0 <= k < 4 :: IsDigit(y[k])
    requires w != [] && |w| <= 55 && forall k | 0 <= k < |w| :: IsLowerChar(w[k]) || IsDigit(w[k])
    ensures Slugify(y + " " + w, 60) == y + "_" + w
  {
    var stem := y + "_" + w;
    var title := y + " " + w;
    assert IsSlug(y) && IsSlug(w);
    JoinSlugs(y, w);
    assert forall k | 0 <= k < |stem| :: stem[k] == (if k < 4 then y[k] else if k == 4 then '_' else w[k - 5]);
    assert forall k | 0 <= k < |title| :: title[k] == (if k < 4 then y[k] else if k == 4 then ' ' else w[k - 5]);
    SlugifySpaced(title, stem, 60);
  }

  /** The document scanned as `2020_mytest.pdf`, from which the tools read
      nothing, receives the code `2020_article_2020_mytest`. */
  lemma ScannedExampleCode()
    ensures BaseCode(InferDoc("2020_mytest", Doc(map[], "", ""))) == "2020_article_2020_mytest"
  {
    ExampleFacts();
    BaseCodeOfYearWord("2020", "mytest");
  }

  /** The example's name splits into a year and a word without keywords. */
  lemma ExampleFacts()
    ensures "2020_mytest" == "2020" + "_" + "mytest"
    ensures "2020_article_2020_mytest" == "2020" + "_article_" + "2020" + "_" + "mytest"
    ensures CenturyYearAt("2020", 0)
    ensures forall k | 0 <= k < |"mytest"| :: IsLowerChar("mytest"[k]) || IsDigit("mytest"[k])
    ensures !SaysThesis("mytest") && !SaysSlides("mytest") && !SaysPoster("mytest")
    ensures !SaysArxiv("mytest") && !SaysBook("mytest")
  {
  }

  /** The personal tags suggested for a document whose previous record has
      none: computed from the title and the previous free keywords. */
  function AutoTags(prev: Row, title: string, config: seq<Keywords.KeywordEntry>): (tags: string)
    ensures Get(prev, "my_keywords") != [] ==> tags == []
  {
    if Get(prev, "my_keywords") == [] then Keywords.Suggestion(title + "\n" + Get(prev, "keywords"), config)
    else []
  }

  /** The value `scan_pdfs` gives column `f` of a document it has no
      previous record for. */
  function NewValue(f: string, code: string, inf: Inferred, autoTags: string, today: string): string {
    if f == "code" then code
    else if f == "type" then inf.docType
    else if f == "title" then inf.title
    else if f == "year" then inf.year
    else if f == "doi" then inf.doi
    else if f == "author" then inf.author
    else if f == "my_keywords" then autoTags
    else if f == "added_at" then today
    else ""
  }

  /** The row for a document with code `code`, previous record `prev` (the
      empty map for a new document) and inferred fields `inf`: each column
      `f` other than `code` is `prev.get(f, default)`. */
  function ScanRow(code: string, prev: Row, inf: Inferred, autoTags: string, today: string): (row: Row)
    ensures row.Keys == FieldSet()
    ensures row["code"] == code
  {
    map f | f in FieldSet() :: if f == "code" then code else GetOr(prev, f, NewValue(f, code, inf, autoTags, today))
  }

  /** The columns of a previous record that are carried over: every column of
      the store except `code`. */
  function Carried(prev: Row): (c: Row)
    ensures c.Keys == (prev.Keys * FieldSet()) - {"code"}
  {
    map f | f in prev && f in FieldSet() && f != "code" :: prev[f]
  }

  /** A merged row is the row of a new document overridden by every column
      the previous record has, except `code`: a present column is copied
      verbatim, even when it is empty, and an inferred value lands only where
      the previous record lacks the column. */
  lemma ScanRowOverlay(code: string, prev: Row, inf: Inferred, autoTags: string, today: string)
    ensures ScanRow(code, prev, inf, autoTags, today) == ScanRow(code, map[], inf, autoTags, today) + Carried(prev)
    ensures forall f | f in prev && f in FieldSet() && f != "code" :: ScanRow(code, prev, inf, autoTags, today)[f] == prev[f]
  {
    var r := ScanRow(code, prev, inf, autoTags, today);
    var merged := ScanRow(code, map[], inf, autoTags, today) + Carried(prev);
    assert r.Keys == merged.Keys;
    forall f | f in r ensures r[f] == merged[f] {
      ScanRowAt(code, prev, inf, autoTags, today, f);
    }
    assert r == merged;
  }

  /** One column of the merged row. */
  lemma ScanRowAt(code: string, prev: Row, inf: Inferred, autoTags: string, today: string, f: string)
    requires f in FieldSet()
    ensures var merged := ScanRow(code, map[], inf, autoTags, today) + Carried(prev);
      f in merged && ScanRow(code, prev, inf, autoTags, today)[f] == merged[f]
  {
    var newDoc := ScanRow(code, map[], inf, autoTags, today);
    var merged := newDoc + Carried(prev);
    if f in Carried(prev) {
      assert merged[f] == prev[f];
    } else {
      assert merged[f] == newDoc[f];
    }
  }

  /** `load_metadata`: the stored rows by stripped code, the last row of each
      code winning. */
  function ByCode(rows: seq<Row>): (m: map<string, Row>)
    ensures forall c | c in m :: c != [] && exists i | 0 <= i < |rows| :: Field(rows[i], "code") == c && m[c] == rows[i]
    ensures forall i | 0 <= i < |rows| && Field(rows[i], "code") != [] :: Field(rows[i], "code") in m
  {
    if rows == [] then map[]
    else
      var m := ByCode(rows[..|rows| - 1]);
      var last := rows[|rows| - 1];
      var c := Field(last, "code");
      assert forall i | 0 <= i < |rows| - 1 :: rows[..|rows| - 1][i] == rows[i];
      if c == [] then m else m[c := last]
  }

  /** The previous record of the file `name`, or the empty map. */
  function Previous(existing: map<string, Row>, name: string): Row {
    if name in existing then existing[name] else map[]
  }

  /** The row `scan_pdfs` writes for the file `name`, about whose document
      `inf` is inferred, once its code is known. */
  function ScannedRow(code: string, name: string, inf: Inferred, existing: map<string, Row>,
                      config: seq<Keywords.KeywordEntry>, today: string): (row: Row)
    ensures "code" in row && row["code"] == code
  {
    var prev := Previous(existing, name);
    ScanRow(code, prev, inf, AutoTags(prev, inf.title, config), today)
  }

  /** One file of a scan: its code, its old stem and its document. */
  datatype ScanInput = ScanInput(code: string, name: string, doc: Doc)

  /** The files `names`, whose documents were `docs0`, with their codes. */
  function ScanInputs(codes: seq<string>, names: seq<string>, docs0: map<string, Doc>): (inputs: seq<ScanInput>)
    requires |codes| == |names| && forall k | 0 <= k < |names| :: names[k] in docs0
    ensures |inputs| == |names|
    ensures forall k | 0 <= k < |names| :: inputs[k] == ScanInput(codes[k], names[k], docs0[names[k]])
  {
    seq(|names|, k requires 0 <= k < |names| => ScanInput(codes[k], names[k], docs0[names[k]]))
  }

  /** The rows `scan_pdfs` writes for `inputs`, one per file, in order, when
      `infer` says what is inferred about a document. The scan itself uses
      `InferDoc`; the loop that computes it is written for any `infer`, which
      keeps its proof apart from the inference steps. */
  function ScanRows(infer: (string, Doc) -> Inferred, inputs: seq<ScanInput>, existing: map<string, Row>,
                    config: seq<Keywords.KeywordEntry>, today: string): (r: seq<Row>)
    ensures |r| == |inputs|
  {
    MapSeq((x: ScanInput) => ScannedRow(x.code, x.name, infer(x.name, x.doc), existing, config, today), inputs)
  }

  /** Row `k` of a scan is the scanned row of file `k`. */
  lemma ScanRowsAt(infer: (string, Doc) -> Inferred, inputs: seq<ScanInput>, existing: map<string, Row>,
                   config: seq<Keywords.KeywordEntry>, today: string, k: nat)
    requires k < |inputs|
    ensures ScanRows(infer, inputs, existing, config, today)[k]
         == ScannedRow(inputs[k].code, inputs[k].name, infer(inputs[k].name, inputs[k].doc), existing, config, today)
  {
    MapSeqAt((x: ScanInput) => ScannedRow(x.code, x.name, infer(x.name, x.doc), existing, config, today), inputs, k);
  }

  /** The scan of one file, whose document `doc` has inferred fields `inf`. */
  lemma ScanRowsOne(infer: (string, Doc) -> Inferred, code: string, name: string, doc: Doc, inf: Inferred,
                    row: Row, existing: map<string, Row>, config: seq<Keywords.KeywordEntry>, today: string)
    requires inf == infer(name, doc)
    requires row == ScannedRow(code, name, inf, existing, config, today)
    ensures [row] == ScanRows(infer, [ScanInput(code, name, doc)], existing, config, today)
    ensures Get(row, "code") == code
  {
    ScanRowsAt(infer, [ScanInput(code, name, doc)], existing, config, today, 0);
  }

  lemma ScanRowsConcat(infer: (string, Doc) -> Inferred, inputs: seq<ScanInput>, more: seq<ScanInput>,
                       existing: map<string, Row>, config: seq<Keywords.KeywordEntry>, today: string)
    ensures ScanRows(infer, inputs + more, existing, config, today)
         == ScanRows(infer, inputs, existing, config, today) + ScanRows(infer, more, existing, config, today)
  {
    MapSeqConcat((x: ScanInput) => ScannedRow(x.code, x.name, infer(x.name, x.doc), existing, config, today), inputs, more);
  }

  /** The codes the rows carry, unstripped. */
  function CodesOf(rows: seq<Row>): (cs: seq<string>)
    ensures |cs| == |rows| && forall i | 0 <= i < |rows| :: cs[i] == Get(rows[i], "code")
  {
    seq(|rows|, i requires 0 <= i < |rows| => Get(rows[i], "code"))
  }

  /** The base codes of the files of a scan. */
  function BaseCodes(infer: (string, Doc) -> Inferred, inputs: seq<ScanInput>): (bases: seq<string>)
    ensures |bases| == |inputs|
  {
    MapSeq((x: ScanInput) => BaseCode(infer(x.name, x.doc)), inputs)
  }

  lemma BaseCodesAt(infer: (string, Doc) -> Inferred, inputs: seq<ScanInput>, k: nat)
    requires k < |inputs|
    ensures BaseCodes(infer, inputs)[k] == BaseCode(infer(inputs[k].name, inputs[k].doc))
  {
    MapSeqAt((x: ScanInput) => BaseCode(infer(x.name, x.doc)), inputs, k);
  }

  lemma BaseCodesConcat(infer: (string, Doc) -> Inferred, inputs: seq<ScanInput>, more: seq<ScanInput>)
    ensures BaseCodes(infer, inputs + more) == BaseCodes(infer, inputs) + BaseCodes(infer, more)
  {
    MapSeqConcat((x: ScanInput) => BaseCode(infer(x.name, x.doc)), inputs, more);
  }

  /** The stems in the directory once the files `names` have been placed,
      one after the other, under `codes`, starting from the stems `keys0`. */
  function Occupied(keys0: set<string>, names: seq<string>, codes: seq<string>): set<string>
    requires |codes| == |names|
  {
    if names == [] then keys0
    else
      var k := |names| - 1;
      Occupied(keys0, names[..k], codes[..k]) - {names[k]} + {codes[k]}
  }

  /** Each code is the first free probe of its base code in the directory
      as it is when its file's turn comes: after the files before it in
      `listing` have been placed under their codes. */
  predicate FirstFreeCodes(codes: seq<string>, bases: seq<string>, keys0: set<string>, listing: seq<string>) {
    && |codes| == |bases| <= |listing|
    && (codes != [] ==>
          var k := |codes| - 1;
          && FirstFreeCodes(codes[..k], bases[..k], keys0, listing)
          && codes[k] == FirstFree(bases[k], Occupied(keys0, listing[..k], codes[..k]), listing[k]))
  }

  /** `FirstFreeCodes` file by file. */
  lemma {:induction false} FirstFreeCodesAt(codes: seq<string>, bases: seq<string>, keys0: set<string>, listing: seq<string>,
                                            k: nat)
    requires FirstFreeCodes(codes, bases, keys0, listing) && k < |codes|
    ensures k < |listing| && codes[k] == FirstFree(bases[k], Occupied(keys0, listing[..k], codes[..k]), listing[k])
  {
    var n := |codes| - 1;
    if k < n {
      FirstFreeCodesAt(codes[..n], bases[..n], keys0, listing, k);
      assert codes[..n][..k] == codes[..k];
    }
  }

  /** Placing one more file extends `FirstFreeCodes`. */
  lemma FirstFreeCodesStep(codes: seq<string>, bases: seq<string>, keys0: set<string>, listing: seq<string>,
                           code: string, base: string)
    requires FirstFreeCodes(codes, bases, keys0, listing) && |codes| < |listing|
    requires code == FirstFree(base, Occupied(keys0, listing[..|codes|], codes), listing[|codes|])
    ensures FirstFreeCodes(codes + [code], bases + [base], keys0, listing)
  {
    assert (codes + [code])[..|codes|] == codes && (bases + [base])[..|codes|] == bases;
  }

  /** Placing the file `listing[|codes|]` under `code` moves the occupied
      stems along. */
  lemma OccupiedStep(keys0: set<string>, listing: seq<string>, codes: seq<string>, code: string)
    requires |codes| < |listing|
    ensures var i := |codes|;
      Occupied(keys0, listing[..i + 1], codes + [code]) == Occupied(keys0, listing[..i], codes) - {listing[i]} + {code}
  {
    var i := |codes|;
    assert listing[..i + 1][..i] == listing[..i] && (codes + [code])[..i] == codes;
  }

  /** Appending one file to `ScanInputs`. */
  lemma ScanInputsStep(codes: seq<string>, names: seq<string>, docs0: map<string, Doc>, i: nat, code: string)
    requires |codes| == i < |names| && forall k | 0 <= k < |names| :: names[k] in docs0
    ensures ScanInputs(codes + [code], names[..i + 1], docs0)
         == ScanInputs(codes, names[..i], docs0) + [ScanInput(code, names[i], docs0[names[i]])]
  {
  }

  lemma CodesOfAppend(rows: seq<Row>, row: Row)
    ensures CodesOf(rows + [row]) == CodesOf(rows) + [Get(row, "code")]
  {
  }

  /** Where the files of a scan are after the first `|codes|` of `listing`
      have been placed: each placed file's document is under its code, each
      file still to come is where it was, no placed code is the stem of a
      file still to come, and no two placed codes are equal. */
  predicate Placed(docs: map<string, Doc>, docs0: map<string, Doc>, codes: seq<string>, listing: seq<string>) {
    && |codes| <= |listing|
    && (forall k | 0 <= k < |codes| :: codes[k] in docs && listing[k] in docs0 && docs[codes[k]] == docs0[listing[k]])
    && (forall j | |codes| <= j < |listing| :: listing[j] in docs && listing[j] in docs0 && docs[listing[j]] == docs0[listing[j]])
    && (forall k, j | 0 <= k < |codes| <= j < |listing| :: codes[k] != listing[j])
    && (forall k, l | 0 <= k < l < |codes| :: codes[k] != codes[l])
  }

  /** Placing the next file keeps `Placed`: it either stays or moves to a
      name no file had. */
  lemma PlacedStep(docs: map<string, Doc>, docs': map<string, Doc>, docs0: map<string, Doc>,
                   codes: seq<string>, listing: seq<string>, code: string)
    requires Placed(docs, docs0, codes, listing) && |codes| < |listing|
    requires forall i, j | 0 <= i < j < |listing| :: listing[i] != listing[j]
    requires var name := listing[|codes|];
      && code in docs' && docs'[code] == docs[name]
      && (code == name ==> docs' == docs)
      && (code != name ==> code !in docs && docs' == (docs - {name})[code := docs[name]])
    ensures Placed(docs', docs0, codes + [code], listing)
  {
    var i := |codes|;
    var name := listing[i];
    var codes' := codes + [code];
    forall k | 0 <= k < |codes'| ensures codes'[k] in docs' && docs'[codes'[k]] == docs0[listing[k]] {
      if k < i {
        assert codes'[k] == codes[k] && codes[k] != name;
      }
    }
    forall j | i + 1 <= j < |listing| ensures listing[j] in docs' && docs'[listing[j]] == docs0[listing[j]] {
      assert listing[j] != name;
      assert listing[j] != code;
    }
    forall k, l | 0 <= k < l < |codes'| ensures codes'[k] != codes'[l] {
      if l == i {
        assert codes[k] in docs;
        assert codes[k] != name;
      }
    }
  }

  /** Renaming `from` to a free name moves one document and keeps the number
      of files and the set of documents. */
  lemma RenameKeeps(docs: map<string, Doc>, from: string, to: string)
    requires from in docs && to !in docs
    ensures var moved := (docs - {from})[to := docs[from]];
      moved.Keys == docs.Keys - {from} + {to} && |moved.Keys| == |docs.Keys| && moved.Values == docs.Values
  {
    var moved := (docs - {from})[to := docs[from]];
    assert moved.Keys == docs.Keys - {from} + {to};
    assert |docs.Keys - {from}| == |docs.Keys| - 1;
    forall v | v in docs.Values ensures v in moved.Values {
      var k :| k in docs && docs[k] == v;
      if k == from { assert moved[to] == v; } else { assert moved[k] == v; }
    }
    forall v | v in moved.Values ensures v in docs.Values {
      var k :| k in moved && moved[k] == v;
      if k == to { assert docs[from] == v; } else { assert docs[k] == v; }
    }
  }

  // ---------------------------------------------------------------------------
  // The title rule of `cleanup_titles` (CODE/bib.py:926-948)
  // ---------------------------------------------------------------------------

  /** The title extracted again from a row's PDF, normalised; `None` when
      the row's file does not exist. */
  function PdfTitle(docs: map<string, Doc>, row: Row): Option<string> {
    var code := Field(row, "code");
    if code != [] && code in docs then
      Some(NormalizeTitle(Candidates.ExtractTitle(docs[code].info, docs[code].firstPage, code + ".pdf")))
    else None
  }

  /** The extracted title replaces the current one only when it is non-empty
      and either the refresh is forced and it scores above zero, or it
      scores above zero, beats the current title and needs no refresh. */
  predicate AcceptsExtracted(current: string, extracted: string, force: bool) {
    extracted != [] &&
    ((force && ScoreTitle(extracted) > 0) ||
     (ScoreTitle(extracted) > ScoreTitle(current) && ScoreTitle(extracted) > 0 && !NeedsTitleRefresh(extracted)))
  }

  /** The title `cleanup_titles` settles on for a row whose stored title is
      `original`: its normalisation, unless the PDF is consulted (with
      `from_pdfs`, when forced or when the normalised title needs a refresh)
      and its extracted title is accepted. A title that does not need a
      refresh is never replaced without `force`, and a replacement always
      scores above zero. */
  function CleanTitle(original: string, extracted: Option<string>, fromPdfs: bool, force: bool): (t: string)
    ensures !fromPdfs || extracted.None? ==> t == NormalizeTitle(original)
    ensures !force && !NeedsTitleRefresh(NormalizeTitle(original)) ==> t == NormalizeTitle(original)
    ensures t != NormalizeTitle(original) ==>
      extracted == Some(t) && t != [] && ScoreTitle(t) > 0 &&
      (force || (ScoreTitle(t) > ScoreTitle(NormalizeTitle(original)) && !NeedsTitleRefresh(t)))
  {
    var normalized := NormalizeTitle(original);
    if fromPdfs && (force || NeedsTitleRefresh(normalized)) && extracted.Some?
       && AcceptsExtracted(normalized, extracted.value, force)
    then extracted.value
    else normalized
  }

  /** The row after the title step with settled title `t`: it is written
      only when it is non-empty and differs from the stored one, so an empty
      normalisation never blanks a title. */
  function WithTitle(row: Row, t: string): (r: Row)
    ensures forall f | f != "title" :: (f in r <==> f in row) && (f in row ==> r[f] == row[f])
    ensures Get(r, "title") == if t != [] then t else Get(row, "title")
  {
    if t != [] && t != Get(row, "title") then row["title" := t] else row
  }

  /** The code `cleanup_titles` builds for a row from its stripped year
      (default `"0000"`), its stripped type (default `"article"`) and its
      title (default: the current code, then `"untitled"`). */
  function CleanupBase(row: Row): (base: string)
    ensures |base| > 4
    ensures base[..4] == SafeYear(if Field(row, "year") == [] then "0000" else Field(row, "year"))
    ensures IsSlug(base)
  {
    var current := Field(row, "code");
    var year := if Field(row, "year") == [] then "0000" else Field(row, "year");
    var docType := if Field(row, "type") == [] then "article" else Field(row, "type");
    var titleForCode := if Get(row, "title") != [] then Get(row, "title")
                        else if current != [] then current else "untitled";
    var c := BuildCode(year, docType, titleForCode);
    assert 4 < |c| && c[..4] == SafeYear(year) && IsSlug(c) by {
      BuildCodeFacts(year, docType, titleForCode);
    }
    c
  }

  /** The title extracted again from the row's PDF, when `cleanup_titles`
      consults it: with `fromPdfs`, when forced or when the normalised title
      needs a refresh. */
  function ExtractedTitle(docs: map<string, Doc>, row: Row, fromPdfs: bool, force: bool): Option<string> {
    if fromPdfs && (force || NeedsTitleRefresh(NormalizeTitle(Get(row, "title")))) then PdfTitle(docs, row) else None
  }

  /** The title `cleanup_titles` settles on for `row` when the directory is `docs`. */
  function SettledTitle(docs: map<string, Doc>, row: Row, fromPdfs: bool, force: bool): string {
    CleanTitle(Get(row, "title"), ExtractedTitle(docs, row, fromPdfs, force), fromPdfs, force)
  }

  function SettleFor(fromPdfs: bool, force: bool): (map<string, Doc>, Row) -> string {
    (docs, row) => SettledTitle(docs, row, fromPdfs, force)
  }

  /** The title `settle` gives `row` under the directory `docs`. */
  function Settle(settle: (map<string, Doc>, Row) -> string, docs: map<string, Doc>, row: Row): string {
    settle(docs, row)
  }

  /** The directory after moving the file `from` to the free name `to`. */
  function Moved(docs: map<string, Doc>, from: string, to: string): map<string, Doc>
    requires from in docs
  {
    (docs - {from})[to := docs[from]]
  }

  /** What one row of `cleanup_titles` leaves: the row, the directory, the
      settled title, and whether the title, the code and the file changed. */
  datatype Cleaned = Cleaned(row: Row, dir: map<string, Doc>, title: string,
                             retitled: bool, recoded: bool, renamed: bool)

  /** One row of `cleanup_titles` under the directory `dir`: the settled
      title is written when it is non-empty and new; with `renameFiles` the
      row's code becomes the first free probe of its cleanup base, its own
      file counting as free, and the file, when it exists under another
      name, is moved there unless `dryRun`. */
  function CleanupStep(row: Row, dir: map<string, Doc>, renameFiles: bool, dryRun: bool,
                       settle: (map<string, Doc>, Row) -> string, base: Row -> string): Cleaned
  {
    var t := Settle(settle, dir, row);
    var titled := WithTitle(row, t);
    var retitled := t != [] && t != Get(row, "title");
    if !renameFiles then Cleaned(titled, dir, t, retitled, false, false)
    else
      var current := Field(titled, "code");
      var code := FirstFree(base(titled), dir.Keys, current);
      var renamed := current != [] && current in dir && current != code;
      if renamed && !dryRun then
        Cleaned(titled["code" := code], Moved(dir, current, code), t, retitled, true, true)
      else
        Cleaned(if code != current then titled["code" := code] else titled, dir, t, retitled, code != current, renamed)
  }

  /** A step writes the settled title when it is non-empty, flags exactly a
      title change, keeps every field but the title and the code, changes
      nothing it does not flag, touches neither codes nor files without
      `renameFiles` nor files in a dry run, and keeps the directory's number
      of files and its documents. */
  lemma CleanupStepFacts(row: Row, dir: map<string, Doc>, renameFiles: bool, dryRun: bool,
                         settle: (map<string, Doc>, Row) -> string, base: Row -> string)
    ensures var s := CleanupStep(row, dir, renameFiles, dryRun, settle, base);
      && Get(s.row, "title") == (if s.title != [] then s.title else Get(row, "title"))
      && (s.retitled <==> Get(s.row, "title") != Get(row, "title"))
      && (forall f | f != "title" && f != "code" :: (f in s.row <==> f in row) && (f in row ==> s.row[f] == row[f]))
      && (!s.retitled && !s.recoded ==> s.row == row)
      && (!renameFiles ==> !s.recoded && !s.renamed && s.dir == dir)
      && (dryRun ==> s.dir == dir)
      && |s.dir.Keys| == |dir.Keys| && s.dir.Values == dir.Values
  {
    var s := CleanupStep(row, dir, renameFiles, dryRun, settle, base);
    var titled := WithTitle(row, s.title);
    if renameFiles && s.renamed && !dryRun {
      var current := Field(titled, "code");
      FirstFreeFacts(base(titled), dir.Keys, current);
      RenameKeeps(dir, current, FirstFree(base(titled), dir.Keys, current));
    }
  }

  /** With `renameFiles`, the stripped code of the row after its step is the
      first free probe of the cleanup base of the retitled row in the
      directory as the step found it; the code counts as updated exactly
      when it differs from the stripped old one, and the file is moved
      exactly when it exists under that old code, into a name no file had. */
  lemma CleanupStepCode(row: Row, dir: map<string, Doc>, renameFiles: bool, dryRun: bool,
                        settle: (map<string, Doc>, Row) -> string, base: Row -> string)
    requires renameFiles && ProbesStripped(base)
    ensures var s := CleanupStep(row, dir, renameFiles, dryRun, settle, base);
      var current := Field(row, "code");
      var code := Field(s.row, "code");
      && code == FirstFree(base(WithTitle(row, s.title)), dir.Keys, current)
      && (s.recoded <==> code != current)
      && (s.renamed <==> current != [] && current in dir && code != current)
      && (s.renamed && !dryRun ==> code !in dir && s.dir == Moved(dir, current, code))
  {
    var s := CleanupStep(row, dir, renameFiles, dryRun, settle, base);
    var titled := WithTitle(row, s.title);
    var code := FirstFree(base(titled), dir.Keys, Field(titled, "code"));
    FirstFreeFacts(base(titled), dir.Keys, Field(titled, "code"));
    var n :| n >= 1 && code == Probe(base(titled), n);
    assert Strip(Probe(base(titled), n)) == Probe(base(titled), n);
    assert Field(titled, "code") == Field(row, "code");
  }

  /** What `cleanup_titles` has made of a run of rows: the rows, the
      directory and its three counters. */
  datatype Cleanup = Cleanup(rows: seq<Row>, dir: map<string, Doc>, updated: nat, codeUpdates: nat, renames: nat)

  /** The run `p` followed by the step `s`. */
  function Advance(p: Cleanup, s: Cleaned): Cleanup {
    Cleanup(p.rows + [s.row], s.dir,
            p.updated + (if s.retitled then 1 else 0),
            p.codeUpdates + (if s.recoded then 1 else 0),
            p.renames + (if s.renamed then 1 else 0))
  }

  /** A run of `step` over `rows` from the directory `docs`: each row takes
      its step in the directory the rows before it left. */
  function RunSteps(step: (Row, map<string, Doc>) -> Cleaned, rows: seq<Row>, docs: map<string, Doc>): (r: Cleanup)
    ensures |r.rows| == |rows|
    ensures r.updated <= |rows| && r.codeUpdates <= |rows| && r.renames <= |rows|
  {
    if rows == [] then Cleanup([], docs, 0, 0, 0)
    else
      var k := |rows| - 1;
      var p := RunSteps(step, rows[..k], docs);
      Advance(p, step(rows[k], p.dir))
  }

  /** The step of `cleanup_titles` as a function of the row and the directory. */
  function StepFor(renameFiles: bool, dryRun: bool, settle: (map<string, Doc>, Row) -> string, base: Row -> string)
    : (Row, map<string, Doc>) -> Cleaned
  {
    (row, dir) => CleanupStep(row, dir, renameFiles, dryRun, settle, base)
  }

  /** `cleanup_titles` over `rows`, starting from the directory `docs`. */
  function CleanupRun(rows: seq<Row>, docs: map<string, Doc>, renameFiles: bool, dryRun: bool,
                      settle: (map<string, Doc>, Row) -> string, base: Row -> string): Cleanup
  {
    RunSteps(StepFor(renameFiles, dryRun, settle, base), rows, docs)
  }

  /** One more row of a run. */
  lemma RunStepsStep(step: (Row, map<string, Doc>) -> Cleaned, rows: seq<Row>, docs: map<string, Doc>, i: nat)
    requires i < |rows|
    ensures var p := RunSteps(step, rows[..i], docs);
      RunSteps(step, rows[..i + 1], docs) == Advance(p, step(rows[i], p.dir))
  {
    assert rows[..i + 1][..i] == rows[..i];
  }

  /** Row `i` of a run is the row its own step makes of `rows[i]` in the
      directory the rows before it left. */
  lemma {:induction false} RunStepsAt(step: (Row, map<string, Doc>) -> Cleaned, rows: seq<Row>, docs: map<string, Doc>, i: nat)
    requires i < |rows|
    ensures RunSteps(step, rows, docs).rows[i] == step(rows[i], RunSteps(step, rows[..i], docs).dir).row
  {
    var k := |rows| - 1;
    if i < k {
      RunStepsAt(step, rows[..k], docs, i);
      assert rows[..k][..i] == rows[..i] && rows[..k][i] == rows[i];
    } else {
      assert rows[..k] == rows[..i];
    }
  }

  /** The loop of `cleanup_titles` after `i` rows: the first `i` rows are
      those of the run over them, the rest are as they were, and the
      directory and the counters are the run's. */
  ghost predicate CleanupAt(step: (Row, map<string, Doc>) -> Cleaned, rows: seq<Row>, docs: map<string, Doc>, i: nat,
                            cleaned: seq<Row>, dir: map<string, Doc>, updated: nat, codeUpdates: nat, renames: nat) {
    && i <= |rows|
    && var r := RunSteps(step, rows[..i], docs);
      && cleaned == r.rows + rows[i..] && Cleanup(r.rows, dir, updated, codeUpdates, renames) == r
  }

  /** Before the first row, nothing has been done. */
  lemma CleanupAtStart(step: (Row, map<string, Doc>) -> Cleaned, rows: seq<Row>, docs: map<string, Doc>)
    ensures CleanupAt(step, rows, docs, 0, rows, docs, 0, 0, 0)
  {
    assert rows[..0] == [] && rows[0..] == rows;
  }

  /** After the last row, the loop's state is the whole run. */
  lemma CleanupAtEnd(step: (Row, map<string, Doc>) -> Cleaned, rows: seq<Row>, docs: map<string, Doc>, i: nat,
                     cleaned: seq<Row>, dir: map<string, Doc>, updated: nat, codeUpdates: nat, renames: nat)
    requires CleanupAt(step, rows, docs, i, cleaned, dir, updated, codeUpdates, renames)
    requires i >= |cleaned|
    ensures Cleanup(cleaned, dir, updated, codeUpdates, renames) == RunSteps(step, rows, docs)
  {
    assert rows[..i] == rows && rows[i..] == [];
  }

  /** The step of row `i` keeps `CleanupAt`. */
  lemma CleanupAtStep(step: (Row, map<string, Doc>) -> Cleaned, rows: seq<Row>, docs: map<string, Doc>, i: nat,
                      cleaned: seq<Row>, dir: map<string, Doc>, updated: nat, codeUpdates: nat, renames: nat, s: Cleaned)
    requires CleanupAt(step, rows, docs, i, cleaned, dir, updated, codeUpdates, renames)
    requires i < |rows|
    requires s == step(cleaned[i], dir)
    ensures i < |cleaned| && cleaned[i] == rows[i]
    ensures CleanupAt(step, rows, docs, i + 1, cleaned[i := s.row], s.dir,
                      updated + (if s.retitled then 1 else 0), codeUpdates + (if s.recoded then 1 else 0),
                      renames + (if s.renamed then 1 else 0))
  {
    var p := RunSteps(step, rows[..i], docs);
    assert |p.rows| == i;
    RunStepsStep(step, rows, docs, i);
    Splice(p.rows, rows[i..], s.row);
    assert rows[i..][1..] == rows[i + 1..];
  }

  /** Overwriting the first element after `a` in `a + b`. */
  lemma Splice(a: seq<Row>, b: seq<Row>, x: Row)
    requires b != []
    ensures (a + b)[|a| := x] == a + [x] + b[1..]
  {
  }

  /** A run of steps that each keep the number of files and the documents
      keeps them too; a run of steps that each leave the directory alone
      leaves it alone. */
  lemma {:induction false} RunStepsKeeps(step: (Row, map<string, Doc>) -> Cleaned, rows: seq<Row>, docs: map<string, Doc>)
    requires forall row, dir :: |step(row, dir).dir.Keys| == |dir.Keys| && step(row, dir).dir.Values == dir.Values
    ensures var r := RunSteps(step, rows, docs);
      && |r.dir.Keys| == |docs.Keys| && r.dir.Values == docs.Values
      && ((forall row, dir :: step(row, dir).dir == dir) ==> r.dir == docs)
  {
    if rows != [] {
      RunStepsKeeps(step, rows[..|rows| - 1], docs);
    }
  }

  /** Renames go only into names no file had, so the directory keeps its
      number of files and its documents; a dry run or a run without
      `renameFiles` leaves it as it was. */
  lemma CleanupRunKeeps(rows: seq<Row>, docs: map<string, Doc>, renameFiles: bool, dryRun: bool,
                        settle: (map<string, Doc>, Row) -> string, base: Row -> string)
    ensures var r := CleanupRun(rows, docs, renameFiles, dryRun, settle, base);
      && |r.dir.Keys| == |docs.Keys| && r.dir.Values == docs.Values
      && (dryRun || !renameFiles ==> r.dir == docs)
  {
    var step := StepFor(renameFiles, dryRun, settle, base);
    forall row, dir ensures |step(row, dir).dir.Keys| == |dir.Keys| && step(row, dir).dir.Values == dir.Values
                        && (dryRun || !renameFiles ==> step(row, dir).dir == dir) {
      CleanupStepFacts(row, dir, renameFiles, dryRun, settle, base);
    }
    RunStepsKeeps(step, rows, docs);
    if dryRun || !renameFiles {
      assert forall row, dir :: step(row, dir).dir == dir;
    }
  }

  /** Row `i` of `cleanup_titles` is what its own step makes of `rows[i]` in
      the directory the rows before it left. */
  lemma CleanupRunAt(rows: seq<Row>, docs: map<string, Doc>, renameFiles: bool, dryRun: bool,
                     settle: (map<string, Doc>, Row) -> string, base: Row -> string, i: nat)
    requires i < |rows|
    ensures var d := CleanupRun(rows[..i], docs, renameFiles, dryRun, settle, base).dir;
      CleanupRun(rows, docs, renameFiles, dryRun, settle, base).rows[i]
        == CleanupStep(rows[i], d, renameFiles, dryRun, settle, base).row
  {
    RunStepsAt(StepFor(renameFiles, dryRun, settle, base), rows, docs, i);
  }

  /** The number of rows whose title differs between `rows` and `rows'`. */
  function ChangedTitles(rows: seq<Row>, rows': seq<Row>): (n: nat)
    requires |rows'| == |rows|
    ensures n <= |rows|
  {
    if rows == [] then 0
    else
      var k := |rows| - 1;
      ChangedTitles(rows[..k], rows'[..k]) + if Get(rows'[k], "title") != Get(rows[k], "title") then 1 else 0
  }

  /** A run of steps that each flag exactly the title changes counts the
      rows whose title changed. */
  lemma {:induction false} RunStepsUpdated(step: (Row, map<string, Doc>) -> Cleaned, rows: seq<Row>, docs: map<string, Doc>)
    requires forall row, dir :: step(row, dir).retitled <==> Get(step(row, dir).row, "title") != Get(row, "title")
    ensures var r := RunSteps(step, rows, docs);
      r.updated == ChangedTitles(rows, r.rows)
  {
    if rows != [] {
      var k := |rows| - 1;
      RunStepsUpdated(step, rows[..k], docs);
      var r := RunSteps(step, rows, docs);
      var p := RunSteps(step, rows[..k], docs);
      assert r.rows[..k] == p.rows;
    }
  }

  /** The count `cleanup_titles` returns is the number of rows whose title
      it changed. */
  lemma CleanupRunUpdated(rows: seq<Row>, docs: map<string, Doc>, renameFiles: bool, dryRun: bool,
                          settle: (map<string, Doc>, Row) -> string, base: Row -> string)
    ensures var r := CleanupRun(rows, docs, renameFiles, dryRun, settle, base);
      r.updated == ChangedTitles(rows, r.rows)
  {
    var step := StepFor(renameFiles, dryRun, settle, base);
    forall row, dir ensures step(row, dir).retitled <==> Get(step(row, dir).row, "title") != Get(row, "title") {
      CleanupStepFacts(row, dir, renameFiles, dryRun, settle, base);
    }
    RunStepsUpdated(step, rows, docs);
  }

  /** A run of steps that each leave their row alone unless they flag a
      title or a code change leaves all rows alone when it flags none. */
  lemma {:induction false} RunStepsUnchanged(step: (Row, map<string, Doc>) -> Cleaned, rows: seq<Row>, docs: map<string, Doc>)
    requires forall row, dir :: !step(row, dir).retitled && !step(row, dir).recoded ==> step(row, dir).row == row
    ensures var r := RunSteps(step, rows, docs);
      r.updated == 0 && r.codeUpdates == 0 ==> r.rows == rows
  {
    if rows != [] {
      var k := |rows| - 1;
      RunStepsUnchanged(step, rows[..k], docs);
      assert rows == rows[..k] + [rows[k]];
    }
  }

  /** When no title and no code changed, `cleanup_titles` leaves every row
      as it was, so not saving loses nothing. */
  lemma CleanupRunUnchanged(rows: seq<Row>, docs: map<string, Doc>, renameFiles: bool, dryRun: bool,
                            settle: (map<string, Doc>, Row) -> string, base: Row -> string)
    ensures var r := CleanupRun(rows, docs, renameFiles, dryRun, settle, base);
      r.updated == 0 && r.codeUpdates == 0 ==> r.rows == rows
  {
    var step := StepFor(renameFiles, dryRun, settle, base);
    forall row, dir ensures !step(row, dir).retitled && !step(row, dir).recoded ==> step(row, dir).row == row {
      CleanupStepFacts(row, dir, renameFiles, dryRun, settle, base);
    }
    RunStepsUnchanged(step, rows, docs);
  }

  /** Without `renameFiles`, every row keeps all but its title, which becomes
      the title it settles on in the untouched directory. */
  lemma CleanupTitlesOnly(rows: seq<Row>, docs: map<string, Doc>, dryRun: bool,
                          settle: (map<string, Doc>, Row) -> string, base: Row -> string, i: nat)
    requires i < |rows|
    ensures CleanupRun(rows, docs, false, dryRun, settle, base).rows[i] == WithTitle(rows[i], Settle(settle, docs, rows[i]))
  {
    CleanupRunAt(rows, docs, false, dryRun, settle, base, i);
    CleanupRunKeeps(rows[..i], docs, false, dryRun, settle, base);
  }

  /** With `renameFiles`, row `i` ends with the title it settles on in the
      directory the rows before it left, and with the first free probe of
      its cleanup base in that directory as its stripped code. */
  lemma CleanupCodeAt(rows: seq<Row>, docs: map<string, Doc>, dryRun: bool,
                      settle: (map<string, Doc>, Row) -> string, base: Row -> string, i: nat)
    requires ProbesStripped(base) && i < |rows|
    ensures var d := CleanupRun(rows[..i], docs, true, dryRun, settle, base).dir;
      var t := Settle(settle, d, rows[i]);
      var row := CleanupRun(rows, docs, true, dryRun, settle, base).rows[i];
      && Get(row, "title") == Get(WithTitle(rows[i], t), "title")
      && Field(row, "code") == FirstFree(base(WithTitle(rows[i], t)), d.Keys, Field(rows[i], "code"))
  {
    CleanupRunAt(rows, docs, true, dryRun, settle, base, i);
    var d := CleanupRun(rows[..i], docs, true, dryRun, settle, base).dir;
    CleanupStepCode(rows[i], d, true, dryRun, settle, base);
  }

  // ---------------------------------------------------------------------------
  // rebuild_abstracts (CODE/bib.py:607-636)
  // ---------------------------------------------------------------------------

  /** The full text of a row's PDF, `None` when the file does not exist. */
  function PdfText(docs: map<string, Doc>, row: Row): Option<string> {
    var code := Field(row, "code");
    if code != [] && code in docs then Some(docs[code].fullText) else None
  }

  /** `guess_abstract_for_row` over the directory `docs`. */
  function GuessFor(docs: map<string, Doc>, fromPdfs: bool): Row -> string {
    row => Abstracts.GuessAbstractForRow(row, fromPdfs, PdfText(docs, row))
  }

  /** What `guess_abstract_for_row` gives each row. */
  function Guesses(rows: seq<Row>, docs: map<string, Doc>, fromPdfs: bool): (g: seq<string>)
    ensures |g| == |rows|
  {
    MapSeq(GuessFor(docs, fromPdfs), rows)
  }

  /** The abstract stored for the first row with code `code`, whose guessed
      abstract is `guess`: the existing abstract when it is non-empty and
      `force` is off, else the guess. */
  function AbstractEntry(code: string, guess: string, existing: map<string, string>, force: bool): string
  {
    var current := GetOr(existing, code, "");
    if current != [] && !force then current else guess
  }

  /** A row whose code no earlier row carries. */
  predicate FirstOfCode(rows: seq<Row>, i: int)
    requires 0 <= i < |rows|
  {
    forall j | 0 <= j < i :: Field(rows[j], "code") != Field(rows[i], "code")
  }

  /** The codes of the rows, stripped, without the empty one. */
  function RowCodes(rows: seq<Row>): set<string> {
    set i | 0 <= i < |rows| && Field(rows[i], "code") != [] :: Field(rows[i], "code")
  }

  /** One row folded into the rebuilt store `prev` and its count of changed
      entries: only the first row of each non-empty code adds an entry. */
  function RebuildRow(prev: (map<string, string>, nat), row: Row, guess: string,
                      existing: map<string, string>, force: bool): (r: (map<string, string>, nat))
    ensures r.0.Keys == prev.0.Keys + (if Field(row, "code") == [] then {} else {Field(row, "code")})
  {
    var code := Field(row, "code");
    if code == [] || code in prev.0 then prev
    else
      var entry := AbstractEntry(code, guess, existing, force);
      (prev.0[code := entry], prev.1 + if entry != GetOr(existing, code, "") then 1 else 0)
  }

  /** The rebuilt store and the number of entries that changed, for rows
      whose guessed abstracts are `guesses`. */
  function Rebuilt(rows: seq<Row>, existing: map<string, string>, guesses: seq<string>, force: bool): (r: (map<string, string>, nat))
    requires |guesses| == |rows|
    ensures r.0.Keys == RowCodes(rows)
  {
    if rows == [] then (map[], 0)
    else
      var n := |rows| - 1;
      RowCodesStep(rows);
      RebuildRow(Rebuilt(rows[..n], existing, guesses[..n], force), rows[n], guesses[n], existing, force)
  }

  /** One more row folded into `Rebuilt`. */
  lemma RebuiltStep(rows: seq<Row>, existing: map<string, string>, guesses: seq<string>, force: bool, i: nat)
    requires |guesses| == |rows| && i < |rows|
    ensures Rebuilt(rows[..i + 1], existing, guesses[..i + 1], force)
         == RebuildRow(Rebuilt(rows[..i], existing, guesses[..i], force), rows[i], guesses[i], existing, force)
  {
    assert rows[..i + 1][..i] == rows[..i] && guesses[..i + 1][..i] == guesses[..i];
  }

  lemma RowCodesStep(rows: seq<Row>)
    requires rows != []
    ensures RowCodes(rows) == RowCodes(rows[..|rows| - 1]) + (if Field(rows[|rows| - 1], "code") == [] then {} else {Field(rows[|rows| - 1], "code")})
  {
    var init := rows[..|rows| - 1];
    assert forall i | 0 <= i < |init| :: init[i] == rows[i];
  }

  /** Folding one row keeps every earlier entry, and a new non-empty code
      gets the entry of `AbstractEntry`. */
  lemma RebuildRowKeeps(prev: (map<string, string>, nat), row: Row, guess: string,
                        existing: map<string, string>, force: bool)
    ensures var r := RebuildRow(prev, row, guess, existing, force).0;
      && (forall c | c in prev.0 :: c in r && r[c] == prev.0[c])
      && (Field(row, "code") != [] && Field(row, "code") !in prev.0 ==>
            r[Field(row, "code")] == AbstractEntry(Field(row, "code"), guess, existing, force))
  {
  }

  lemma RowCodeIn(rows: seq<Row>, i: nat)
    requires i < |rows| && Field(rows[i], "code") != []
    ensures Field(rows[i], "code") in RowCodes(rows)
  {
  }

  /** The last row's code is new when no earlier row carries it. */
  lemma FirstRowCodeNew(rows: seq<Row>)
    requires rows != [] && FirstOfCode(rows, |rows| - 1)
    ensures Field(rows[|rows| - 1], "code") !in RowCodes(rows[..|rows| - 1])
  {
    var init := rows[..|rows| - 1];
    assert forall j | 0 <= j < |init| :: init[j] == rows[j];
  }

  /** A first row stays first in a prefix that holds it. */
  lemma FirstOfCodePrefix(rows: seq<Row>, n: nat, i: nat)
    requires i < n <= |rows| && FirstOfCode(rows, i)
    ensures FirstOfCode(rows[..n], i)
  {
    var init := rows[..n];
    forall j | 0 <= j < i ensures Field(init[j], "code") != Field(init[i], "code") { assert init[j] == rows[j]; }
  }

  /** The entry of the code of a first row `i` is the one of that row. */
  lemma {:induction false} RebuiltAt(rows: seq<Row>, existing: map<string, string>, guesses: seq<string>, force: bool, i: nat)
    requires |guesses| == |rows| && i < |rows|
    requires Field(rows[i], "code") != [] && FirstOfCode(rows, i)
    ensures Rebuilt(rows, existing, guesses, force).0[Field(rows[i], "code")]
         == AbstractEntry(Field(rows[i], "code"), guesses[i], existing, force)
    decreases |rows|
  {
    var n := |rows| - 1;
    var init := rows[..n];
    var prev := Rebuilt(init, existing, guesses[..n], force);
    assert Rebuilt(rows, existing, guesses, force) == RebuildRow(prev, rows[n], guesses[n], existing, force);
    RebuildRowKeeps(prev, rows[n], guesses[n], existing, force);
    if i < n {
      assert init[i] == rows[i] && guesses[..n][i] == guesses[i];
      FirstOfCodePrefix(rows, n, i);
      RebuiltAt(init, existing, guesses[..n], force, i);
      RowCodeIn(init, i);
    } else {
      FirstRowCodeNew(rows);
    }
  }

  /** The entry of a code is the one of its first row. */
  lemma RebuiltFirst(rows: seq<Row>, existing: map<string, string>, guesses: seq<string>, force: bool)
    requires |guesses| == |rows|
    ensures var r := Rebuilt(rows, existing, guesses, force).0;
      forall i | 0 <= i < |rows| && Field(rows[i], "code") != [] && FirstOfCode(rows, i) ::
        r[Field(rows[i], "code")] == AbstractEntry(Field(rows[i], "code"), guesses[i], existing, force)
  {
    forall i | 0 <= i < |rows| && Field(rows[i], "code") != [] && FirstOfCode(rows, i)
      ensures Rebuilt(rows, existing, guesses, force).0[Field(rows[i], "code")]
           == AbstractEntry(Field(rows[i], "code"), guesses[i], existing, force)
    {
      RebuiltAt(rows, existing, guesses, force, i);
    }
  }

  /** Without `force`, a non-empty existing abstract is kept verbatim. */
  lemma {:induction false} RebuiltKeepsExisting(rows: seq<Row>, existing: map<string, string>, guesses: seq<string>)
    requires |guesses| == |rows|
    ensures var r := Rebuilt(rows, existing, guesses, false).0;
      forall c | c in r && c in existing && existing[c] != [] :: r[c] == existing[c]
  {
    if rows != [] {
      var n := |rows| - 1;
      var prev := Rebuilt(rows[..n], existing, guesses[..n], false);
      var r := Rebuilt(rows, existing, guesses, false).0;
      assert r == RebuildRow(prev, rows[n], guesses[n], existing, false).0;
      RebuiltKeepsExisting(rows[..n], existing, guesses[..n]);
      RebuildRowKeeps(prev, rows[n], guesses[n], existing, false);
    }
  }

  /** The rebuilt store has one entry per distinct non-empty row code, so
      abstracts of codes no row carries are dropped; the entry of a code is
      the one of its first row; and without `force` a non-empty existing
      abstract is kept verbatim. */
  lemma RebuiltFacts(rows: seq<Row>, existing: map<string, string>, guesses: seq<string>, force: bool)
    requires |guesses| == |rows|
    ensures var r := Rebuilt(rows, existing, guesses, force).0;
      && r.Keys == RowCodes(rows)
      && (forall i | 0 <= i < |rows| && Field(rows[i], "code") != [] && FirstOfCode(rows, i) ::
            r[Field(rows[i], "code")] == AbstractEntry(Field(rows[i], "code"), guesses[i], existing, force))
      && (!force ==> forall c | c in r && c in existing && existing[c] != [] :: r[c] == existing[c])
  {
    RebuiltFirst(rows, existing, guesses, force);
    if !force {
      RebuiltKeepsExisting(rows, existing, guesses);
    }
  }

  /** The invariant of the loop of `scan_pdfs` after the first `i` files of
      `listing`: the rows scanned so far, their codes and where the files
      now are. */
  ghost predicate Scanning(listing: seq<string>, dryRun: bool, existing: map<string, Row>,
                           config: seq<Keywords.KeywordEntry>, today: string, infer: (string, Doc) -> Inferred,
                           docs0: map<string, Doc>, docs: map<string, Doc>, i: nat,
                           codes: seq<string>, inputs: seq<ScanInput>, scanned: seq<Row>)
    requires forall k | 0 <= k < |listing| :: listing[k] in docs0
  {
    && ScannedSoFar(listing, existing, config, today, infer, docs0, i, codes, inputs, scanned)
    && PlacedSoFar(listing, dryRun, infer, docs0, docs, i, codes, inputs)
  }

  /** The rows of the first `i` files: one per file, built from its inferred
      fields under its code. */
  ghost predicate ScannedSoFar(listing: seq<string>, existing: map<string, Row>,
                               config: seq<Keywords.KeywordEntry>, today: string, infer: (string, Doc) -> Inferred,
                               docs0: map<string, Doc>, i: nat, codes: seq<string>, inputs: seq<ScanInput>, scanned: seq<Row>)
    requires forall k | 0 <= k < |listing| :: listing[k] in docs0
  {
    && i <= |listing| && |codes| == i
    && inputs == ScanInputs(codes, listing[..i], docs0)
    && scanned == ScanRows(infer, inputs, existing, config, today)
    && CodesOf(scanned) == codes
  }

  /** Where the files are after the first `i` have been placed under
      `codes`, each at the first free probe of its base code. */
  ghost predicate PlacedSoFar(listing: seq<string>, dryRun: bool, infer: (string, Doc) -> Inferred,
                              docs0: map<string, Doc>, docs: map<string, Doc>, i: nat,
                              codes: seq<string>, inputs: seq<ScanInput>)
  {
    && i <= |listing| && |codes| == i && |inputs| == i
    && Placed(docs, docs0, codes, listing)
    && |docs.Keys| == |docs0.Keys| && docs.Values == docs0.Values
    && docs.Keys == Occupied(docs0.Keys, listing[..i], codes)
    && (dryRun ==> docs == docs0 && codes == listing[..i])
    && (!dryRun ==> FirstFreeCodes(codes, BaseCodes(infer, inputs), docs0.Keys, listing))
  }

  /** Scanning file `i`, which moves the directory from `docs` to `docs'`
      and yields `row` with code `code`, keeps `Scanning`. */
  lemma ScanningStep(listing: seq<string>, dryRun: bool, existing: map<string, Row>,
                     config: seq<Keywords.KeywordEntry>, today: string, infer: (string, Doc) -> Inferred,
                     docs0: map<string, Doc>, docs: map<string, Doc>, i: nat,
                     codes: seq<string>, inputs: seq<ScanInput>, scanned: seq<Row>,
                     docs': map<string, Doc>, row: Row, code: string)
    requires forall k | 0 <= k < |listing| :: listing[k] in docs0
    requires forall k, j | 0 <= k < j < |listing| :: listing[k] != listing[j]
    requires Scanning(listing, dryRun, existing, config, today, infer, docs0, docs, i, codes, inputs, scanned)
    requires i < |listing| && listing[i] in docs
    requires var name := listing[i];
      && [row] == ScanRows(infer, [ScanInput(code, name, docs[name])], existing, config, today)
      && Get(row, "code") == code
      && code in docs' && docs'[code] == docs[name]
      && (code == name ==> docs' == docs)
      && (code != name ==> code !in docs && docs' == (docs - {name})[code := docs[name]])
      && |docs'.Keys| == |docs.Keys| && docs'.Values == docs.Values
      && (dryRun ==> code == name)
      && (!dryRun ==> code == FirstFree(BaseCode(infer(name, docs[name])), docs.Keys, name))
    ensures var x := ScanInput(code, listing[i], docs[listing[i]]);
      Scanning(listing, dryRun, existing, config, today, infer, docs0, docs', i + 1,
               codes + [code], inputs + [x], scanned + [row])
  {
    var name := listing[i];
    assert docs[name] == docs0[name];
    ScannedStep(listing, existing, config, today, infer, docs0, i, codes, inputs, scanned, row, code);
    PlacedSoFarStep(listing, dryRun, infer, docs0, docs, i, codes, inputs, docs', code);
  }

  /** One more row keeps `ScannedSoFar`. */
  lemma ScannedStep(listing: seq<string>, existing: map<string, Row>,
                    config: seq<Keywords.KeywordEntry>, today: string, infer: (string, Doc) -> Inferred,
                    docs0: map<string, Doc>, i: nat, codes: seq<string>, inputs: seq<ScanInput>, scanned: seq<Row>,
                    row: Row, code: string)
    requires forall k | 0 <= k < |listing| :: listing[k] in docs0
    requires ScannedSoFar(listing, existing, config, today, infer, docs0, i, codes, inputs, scanned)
    requires i < |listing|
    requires [row] == ScanRows(infer, [ScanInput(code, listing[i], docs0[listing[i]])], existing, config, today)
    requires Get(row, "code") == code
    ensures ScannedSoFar(listing, existing, config, today, infer, docs0, i + 1, codes + [code],
                         inputs + [ScanInput(code, listing[i], docs0[listing[i]])], scanned + [row])
  {
    var x := ScanInput(code, listing[i], docs0[listing[i]]);
    ScanRowsConcat(infer, inputs, [x], existing, config, today);
    ScanInputsStep(codes, listing, docs0, i, code);
    CodesOfAppend(scanned, row);
  }

  /** Placing file `i` keeps `PlacedSoFar`. */
  lemma PlacedSoFarStep(listing: seq<string>, dryRun: bool, infer: (string, Doc) -> Inferred,
                        docs0: map<string, Doc>, docs: map<string, Doc>, i: nat,
                        codes: seq<string>, inputs: seq<ScanInput>, docs': map<string, Doc>, code: string)
    requires forall k, j | 0 <= k < j < |listing| :: listing[k] != listing[j]
    requires PlacedSoFar(listing, dryRun, infer, docs0, docs, i, codes, inputs)
    requires i < |listing| && listing[i] in docs
    requires var name := listing[i];
      && code in docs' && docs'[code] == docs[name]
      && (code == name ==> docs' == docs)
      && (code != name ==> code !in docs && docs' == (docs - {name})[code := docs[name]])
      && |docs'.Keys| == |docs.Keys| && docs'.Values == docs.Values
      && (dryRun ==> code == name)
      && (!dryRun ==> code == FirstFree(BaseCode(infer(name, docs[name])), docs.Keys, name))
    ensures var x := ScanInput(code, listing[i], docs[listing[i]]);
      PlacedSoFar(listing, dryRun, infer, docs0, docs', i + 1, codes + [code], inputs + [x])
  {
    var name := listing[i];
    var x := ScanInput(code, name, docs[name]);
    PlacedStep(docs, docs', docs0, codes, listing, code);
    OccupiedMove(docs0.Keys, listing, codes, docs, docs', code);
    if !dryRun {
      NextFirstFree(infer, inputs, x, codes, docs0.Keys, listing, code);
    } else {
      PrefixStep(listing, i);
    }
  }

  /** Moving the file `listing[|codes|]` to `code` moves the occupied stems
      along. */
  lemma OccupiedMove(keys0: set<string>, listing: seq<string>, codes: seq<string>,
                     docs: map<string, Doc>, docs': map<string, Doc>, code: string)
    requires |codes| < |listing| && listing[|codes|] in docs
    requires docs.Keys == Occupied(keys0, listing[..|codes|], codes)
    requires var name := listing[|codes|];
      && (code == name ==> docs' == docs)
      && (code != name ==> docs' == (docs - {name})[code := docs[name]])
    ensures docs'.Keys == Occupied(keys0, listing[..|codes| + 1], codes + [code])
  {
    OccupiedStep(keys0, listing, codes, code);
    assert docs'.Keys == docs.Keys - {listing[|codes|]} + {code};
  }

  /** A file placed at the first free probe of its base code extends
      `FirstFreeCodes`. */
  lemma NextFirstFree(infer: (string, Doc) -> Inferred, inputs: seq<ScanInput>, x: ScanInput,
                      codes: seq<string>, keys0: set<string>, listing: seq<string>, code: string)
    requires FirstFreeCodes(codes, BaseCodes(infer, inputs), keys0, listing) && |codes| < |listing|
    requires code == FirstFree(BaseCode(infer(x.name, x.doc)), Occupied(keys0, listing[..|codes|], codes), listing[|codes|])
    ensures FirstFreeCodes(codes + [code], BaseCodes(infer, inputs + [x]), keys0, listing)
  {
    BaseCodesStep(infer, inputs, x);
    FirstFreeCodesStep(codes, BaseCodes(infer, inputs), keys0, listing, code, BaseCode(infer(x.name, x.doc)));
  }

  lemma BaseCodesStep(infer: (string, Doc) -> Inferred, inputs: seq<ScanInput>, x: ScanInput)
    ensures BaseCodes(infer, inputs + [x]) == BaseCodes(infer, inputs) + [BaseCode(infer(x.name, x.doc))]
  {
    BaseCodesConcat(infer, inputs, [x]);
    BaseCodesAt(infer, [x], 0);
  }

  lemma PrefixStep(listing: seq<string>, i: nat)
    requires i < |listing|
    ensures listing[..i + 1] == listing[..i] + [listing[i]]
  {
  }

  // ---------------------------------------------------------------------------
  // The library
  // ---------------------------------------------------------------------------

  /** The PDF directory, the metadata store and the abstracts store. */
  class Library {
    /** PDF files by stem. */
    var docs: map<string, Doc>
    /** The rows of the metadata store, in file order. */
    var rows: seq<Row>
    /** The abstracts store by code. */
    var abstracts: map<string, string>

    constructor(docs0: map<string, Doc>, rows0: seq<Row>, abstracts0: map<string, string>)
      ensures docs == docs0 && rows == rows0 && abstracts == abstracts0
    {
      docs := docs0;
      rows := rows0;
      abstracts := abstracts0;
    }

    /** `path.rename(new_path)`: only ever into a name no file has. */
    method Rename(from: string, to: string)
      requires from in docs && to !in docs
      modifies this
      ensures docs == (old(docs) - {from})[to := old(docs)[from]]
      ensures docs.Keys == old(docs).Keys - {from} + {to}
      ensures |docs.Keys| == |old(docs).Keys| && docs.Values == old(docs).Values
      ensures rows == old(rows) && abstracts == old(abstracts)
    {
      RenameKeeps(docs, from, to);
      docs := (docs - {from})[to := docs[from]];
    }

    /** `scan_pdfs`: one row per file of `listing` (the sorted directory
        listing), each file renamed to its first free code unless `dryRun`.
        Every row's code names the file that now holds its document, no two
        rows share a code, the directory keeps its number of files and its
        documents, and in dry-run mode nothing is renamed and each code is
        the file's old stem. `today` is the current UTC date. */
    method ScanPdfs(listing: seq<string>, dryRun: bool, config: seq<Keywords.KeywordEntry>, today: string)
      returns (scanned: seq<Row>)
      requires forall i | 0 <= i < |listing| :: listing[i] in docs
      requires forall i, j | 0 <= i < j < |listing| :: listing[i] != listing[j]
      modifies this
      ensures rows == scanned && abstracts == old(abstracts)
      ensures |scanned| == |listing|
      ensures scanned == ScanRows(InferDoc, ScanInputs(CodesOf(scanned), listing, old(docs)), ByCode(old(rows)), config, today)
      ensures forall i | 0 <= i < |listing| :: CodesOf(scanned)[i] in docs && docs[CodesOf(scanned)[i]] == old(docs)[listing[i]]
      ensures forall i, j | 0 <= i < j < |listing| :: CodesOf(scanned)[i] != CodesOf(scanned)[j]
      ensures |docs.Keys| == |old(docs).Keys| && docs.Values == old(docs).Values
      ensures dryRun ==> docs == old(docs) && CodesOf(scanned) == listing
      ensures !dryRun ==> FirstFreeCodes(CodesOf(scanned), BaseCodes(InferDoc, ScanInputs(CodesOf(scanned), listing, old(docs))),
                                         old(docs).Keys, listing)
    {
      var existing := ByCode(rows);
      scanned := ScanListing(listing, dryRun, existing, config, today, InferDoc);
      rows := scanned;
    }

    /** The loop of `scan_pdfs` over `listing`, with `infer` for the
        inference steps. */
    method ScanListing(listing: seq<string>, dryRun: bool, existing: map<string, Row>,
                       config: seq<Keywords.KeywordEntry>, today: string, infer: (string, Doc) -> Inferred)
      returns (scanned: seq<Row>)
      requires forall i | 0 <= i < |listing| :: listing[i] in docs
      requires forall i, j | 0 <= i < j < |listing| :: listing[i] != listing[j]
      modifies this
      ensures rows == old(rows) && abstracts == old(abstracts)
      ensures |scanned| == |listing|
      ensures scanned == ScanRows(infer, ScanInputs(CodesOf(scanned), listing, old(docs)), existing, config, today)
      ensures Placed(docs, old(docs), CodesOf(scanned), listing)
      ensures |docs.Keys| == |old(docs).Keys| && docs.Values == old(docs).Values
      ensures dryRun ==> docs == old(docs) && CodesOf(scanned) == listing
      ensures !dryRun ==> FirstFreeCodes(CodesOf(scanned), BaseCodes(infer, ScanInputs(CodesOf(scanned), listing, old(docs))),
                                         old(docs).Keys, listing)
    {
      ghost var docs0 := docs;
      ghost var codes: seq<string> := [];
      ghost var inputs: seq<ScanInput> := [];
      scanned := [];
      var i := 0;
      while i < |listing|
        invariant rows == old(rows) && abstracts == old(abstracts)
        invariant Scanning(listing, dryRun, existing, config, today, infer, docs0, docs, i, codes, inputs, scanned)
      {
        var name := listing[i];
        ghost var before := docs;
        var row, code := ScanFile(name, existing, dryRun, config, today, infer);
        ghost var x := ScanInput(code, name, before[name]);
        ScanningStep(listing, dryRun, existing, config, today, infer, docs0, before, i, codes, inputs, scanned,
                     docs, row, code);
        scanned := scanned + [row];
        codes := codes + [code];
        inputs := inputs + [x];
        i := i + 1;
      }
      assert listing[..i] == listing;
    }

    /** The rename step of `scan_pdfs` for the file `name`, whose base code
        is `base`: unless `dryRun`, the file moves to the first free probe of
        `base`; the code is the file's stem afterwards. */
    method PlaceFile(name: string, base: string, dryRun: bool) returns (code: string)
      requires name in docs
      modifies this
      ensures rows == old(rows) && abstracts == old(abstracts)
      ensures code in docs && docs[code] == old(docs)[name]
      ensures code == name ==> docs == old(docs)
      ensures code != name ==> code !in old(docs) && docs == (old(docs) - {name})[code := old(docs)[name]]
      ensures |docs.Keys| == |old(docs).Keys| && docs.Values == old(docs).Values
      ensures dryRun ==> code == name
      ensures !dryRun ==> code == FirstFree(base, old(docs).Keys, name)
    {
      code := EnsureAvailableCode(base, docs.Keys, name);
      FirstFreeFacts(base, docs.Keys, name);
      if !dryRun && code != name {
        Rename(name, code);
      } else {
        code := name;
      }
    }

    /** One file of `scan_pdfs`: its document is inferred, it is renamed to
        its first free code unless `dryRun`, and its row is merged with its
        previous record. */
    method ScanFile(name: string, existing: map<string, Row>, dryRun: bool,
                    config: seq<Keywords.KeywordEntry>, today: string, infer: (string, Doc) -> Inferred)
      returns (row: Row, code: string)
      requires name in docs
      modifies this
      ensures [row] == ScanRows(infer, [ScanInput(code, name, old(docs)[name])], existing, config, today)
      ensures Get(row, "code") == code
      ensures rows == old(rows) && abstracts == old(abstracts)
      ensures code in docs && docs[code] == old(docs)[name]
      ensures code == name ==> docs == old(docs)
      ensures code != name ==> code !in old(docs) && docs == (old(docs) - {name})[code := old(docs)[name]]
      ensures |docs.Keys| == |old(docs).Keys| && docs.Values == old(docs).Values
      ensures dryRun ==> code == name
      ensures !dryRun ==> code == FirstFree(BaseCode(infer(name, old(docs)[name])), old(docs).Keys, name)
    {
      var inf := infer(name, docs[name]);
      code := PlaceFile(name, BaseCode(inf), dryRun);
      row := MergeRow(code, name, inf, existing, config, today);
      ScanRowsOne(infer, code, name, old(docs)[name], inf, row, existing, config, today);
    }

    /** The merge step of `scan_pdfs`: the previous record of `name` over the
        inferred fields, with suggested personal tags when it has none. */
    static method MergeRow(code: string, name: string, inf: Inferred, existing: map<string, Row>,
                           config: seq<Keywords.KeywordEntry>, today: string) returns (row: Row)
      ensures row == ScannedRow(code, name, inf, existing, config, today)
    {
      var prev := Previous(existing, name);
      var autoTags := "";
      if Get(prev, "my_keywords") == [] {
        autoTags := Keywords.SuggestMyKeywords(inf.title + "\n" + Get(prev, "keywords"), config);
      }
      assert autoTags == AutoTags(prev, inf.title, config);
      row := ScanRow(code, prev, inf, autoTags, today);
    }

    /** `cleanup_titles`: the rows and the directory become those of
        `CleanupRun` with `SettledTitle` for the titles and `CleanupBase`
        for the codes; the rows are stored only when a title, a code or a
        file changed and this is no dry run. The result counts the rows
        whose title changed. */
    method CleanupTitles(renameFiles: bool, dryRun: bool, fromPdfs: bool, forceTitles: bool) returns (updated: nat)
      modifies this`rows, this`docs
      ensures var r := CleanupRun(old(rows), old(docs), renameFiles, dryRun, SettleFor(fromPdfs, forceTitles), CleanupBase);
        && docs == r.dir && updated == r.updated
        && rows == if (r.updated > 0 || r.codeUpdates > 0 || r.renames > 0) && !dryRun then r.rows else old(rows)
    {
      var rows', docs';
      rows', docs', updated := CleanupAll(rows, docs, renameFiles, dryRun, fromPdfs, forceTitles);
      rows, docs := rows', docs';
    }

    /** `cleanup_titles` on the stored rows `rows` and the directory `docs`:
        `rows'` and `docs'` are what it stores. The directory keeps its
        number of files and its documents, and a dry run stores nothing. */
    static method CleanupAll(rows: seq<Row>, docs: map<string, Doc>, renameFiles: bool, dryRun: bool,
                             fromPdfs: bool, forceTitles: bool)
      returns (rows': seq<Row>, docs': map<string, Doc>, updated: nat)
      ensures var r := CleanupRun(rows, docs, renameFiles, dryRun, SettleFor(fromPdfs, forceTitles), CleanupBase);
        && docs' == r.dir && updated == r.updated
        && rows' == if (r.updated > 0 || r.codeUpdates > 0 || r.renames > 0) && !dryRun then r.rows else rows
      ensures |docs'.Keys| == |docs.Keys| && docs'.Values == docs.Values
      ensures dryRun ==> rows' == rows && docs' == docs
      ensures !renameFiles ==> docs' == docs
    {
      var cleaned, codeUpdates, renames;
      cleaned, docs', updated, codeUpdates, renames :=
        CleanupLoop(rows, docs, renameFiles, dryRun, SettleFor(fromPdfs, forceTitles), CleanupBase);
      CleanupRunKeeps(rows, docs, renameFiles, dryRun, SettleFor(fromPdfs, forceTitles), CleanupBase);
      rows' := rows;
      if (updated > 0 || codeUpdates > 0 || renames > 0) && !dryRun {
        rows' := cleaned;
      }
    }

    /** The loop of `cleanup_titles` over `rows` and the directory `docs`,
        with `settle` for the title a row settles on under a directory and
        `base` for the code a row is given: the rows, the directory after
        the renames and the three counters are those of `CleanupRun`. */
    static method CleanupLoop(rows: seq<Row>, docs: map<string, Doc>, renameFiles: bool, dryRun: bool,
                              settle: (map<string, Doc>, Row) -> string, base: Row -> string)
      returns (cleaned: seq<Row>, dir: map<string, Doc>, updated: nat, codeUpdates: nat, renames: nat)
      ensures Cleanup(cleaned, dir, updated, codeUpdates, renames) == CleanupRun(rows, docs, renameFiles, dryRun, settle, base)
    {
      cleaned, dir := rows, docs;
      updated, codeUpdates, renames := 0, 0, 0;
      ghost var step := StepFor(renameFiles, dryRun, settle, base);
      CleanupAtStart(step, rows, docs);
      var i := 0;
      while i < |cleaned|
        invariant CleanupAt(step, rows, docs, i, cleaned, dir, updated, codeUpdates, renames)
      {
        var row, dir', t, retitled, recoded, renamed := CleanupRow(cleaned[i], dir, renameFiles, dryRun, settle, base);
        CleanupAtStep(step, rows, docs, i, cleaned, dir, updated, codeUpdates, renames,
                      Cleaned(row, dir', t, retitled, recoded, renamed));
        updated := updated + if retitled then 1 else 0;
        codeUpdates := codeUpdates + if recoded then 1 else 0;
        renames := renames + if renamed then 1 else 0;
        cleaned := cleaned[i := row];
        dir := dir';
        i := i + 1;
      }
      CleanupAtEnd(step, rows, docs, i, cleaned, dir, updated, codeUpdates, renames);
    }

    /** One row of `cleanup_titles` under directory `dir`: its `CleanupStep`. */
    static method CleanupRow(row: Row, dir: map<string, Doc>, renameFiles: bool, dryRun: bool,
                             settle: (map<string, Doc>, Row) -> string, base: Row -> string)
      returns (row': Row, dir': map<string, Doc>, t: string, retitled: bool, recoded: bool, renamed: bool)
      ensures Cleaned(row', dir', t, retitled, recoded, renamed) == CleanupStep(row, dir, renameFiles, dryRun, settle, base)
    {
      t := settle(dir, row);
      row', dir', recoded, renamed := row, dir, false, false;
      retitled := t != [] && t != Get(row, "title");
      if retitled {
        row' := row["title" := t];
      }
      if renameFiles {
        var current := Field(row', "code");
        var code := EnsureAvailableCode(base(row'), dir.Keys, current);
        if current != [] && current in dir && current != code {
          if !dryRun {
            dir' := Moved(dir, current, code);
          }
          renamed := true;
        }
        if code != current {
          row' := row'["code" := code];
          recoded := true;
        }
      }
    }

    /** `import_bibtex`: `text` is the BibTeX file's text, or none when the
        file does not exist. The stored rows become those of `Import`, and
        are saved only when some entry updated a row. */
    method ImportBibtex(text: Option<string>, force: bool) returns (updated: nat)
      modifies this`rows
      ensures text.None? ==> rows == old(rows) && updated == 0
      ensures text.Some? ==> var r := BibImport.Import(old(rows), Bibtex.ParseEntries(text.value), force);
        updated == r.updated && rows == (if r.updated > 0 then r.rows else old(rows))
    {
      var rows';
      rows', updated := BibImport.ImportBibtex(rows, text, force);
      rows := rows';
    }

    /** `rebuild_abstracts`: the abstracts store becomes `Rebuilt` of the
        stored rows and the previous store; the result counts the entries
        that changed. */
    method RebuildAbstracts(fromPdfs: bool, force: bool) returns (updated: nat)
      modifies this
      ensures var r := Rebuilt(old(rows), old(abstracts), Guesses(old(rows), old(docs), fromPdfs), force);
        abstracts == r.0 && updated == r.1
      ensures rows == old(rows) && docs == old(docs)
    {
      var rebuilt;
      rebuilt, updated := RebuildStore(rows, abstracts, force, GuessFor(docs, fromPdfs));
      abstracts := rebuilt;
    }

    /** The loop of `rebuild_abstracts`, with `guess` for the guessed
        abstract of a row: the first row of each code decides its entry. */
    static method RebuildStore(rows: seq<Row>, existing: map<string, string>, force: bool, guess: Row -> string)
      returns (rebuilt: map<string, string>, updated: nat)
      ensures (rebuilt, updated) == Rebuilt(rows, existing, MapSeq(guess, rows), force)
    {
      ghost var guesses := MapSeq(guess, rows);
      rebuilt := map[];
      updated := 0;
      var i := 0;
      while i < |rows|
        invariant i <= |rows| == |guesses|
        invariant (rebuilt, updated) == Rebuilt(rows[..i], existing, guesses[..i], force)
      {
        RebuiltStep(rows, existing, guesses, force, i);
        MapSeqAt(guess, rows, i);
        rebuilt, updated := StoreRow(rebuilt, updated, rows[i], existing, force, guess);
        i := i + 1;
      }
      assert rows[..i] == rows && guesses[..i] == guesses;
    }

    /** One row of `rebuild_abstracts`: the first row of a code stores the
        existing abstract, or the guessed one when there is none or `force`. */
    static method StoreRow(rebuilt: map<string, string>, updated: nat, row: Row, existing: map<string, string>,
                           force: bool, guess: Row -> string)
      returns (rebuilt': map<string, string>, updated': nat)
      ensures (rebuilt', updated') == RebuildRow((rebuilt, updated), row, guess(row), existing, force)
    {
      rebuilt', updated' := rebuilt, updated;
      var code := Field(row, "code");
      if code != [] && code !in rebuilt {
        var current := GetOr(existing, code, "");
        if current != [] && !force {
          rebuilt' := rebuilt[code := current];
        } else {
          var guessed := guess(row);
          rebuilt' := rebuilt[code := guessed];
          if guessed != current {
            updated' := updated + 1;
          }
        }
      }
    }
  }

  /** Every probe of every code `base` builds is its own stripped form, as it
      is for `CleanupBase`, whose codes are slugs. */
  ghost predicate ProbesStripped(base: Row -> string) {
    forall row, n: nat :: Strip(Probe(base(row), n)) == Probe(base(row), n)
  }

  lemma CleanupBaseStripped()
    ensures ProbesStripped(CleanupBase)
  {
    forall row, n: nat ensures Strip(Probe(CleanupBase(row), n)) == Probe(CleanupBase(row), n) {
      ProbeStripped(CleanupBase(row), n);
    }
  }

  /** A probe of a slug has no whitespace at either end. */
  lemma ProbeStripped(base: string, n: nat)
    requires IsSlug(base)
    ensures Strip(Probe(base, n)) == Probe(base, n)
  {
    var p := Probe(base, n);
    assert p[0] == base[0];
    assert IsSlugChar(base[0]);
    if n <= 1 {
      assert IsSlugChar(base[|base| - 1]);
    } else {
      var d := NatToString(n);
      assert p[|p| - 1] == d[|d| - 1];
      assert IsDigit(d[|d| - 1]);
    }
    StripFacts(p);
  }
}
