/** Querying the metadata rows: `parse_ymd_date` (CODE/bib.py:703-713),
    `filter_rows` (CODE/bib.py:729-783) and `sort_rows_by_added`
    (CODE/bib.py:715-726). */
module Query {
  import opened Wrappers
  import opened Text
  import opened Identifier

  /** A metadata record, keyed by column name. */
  type Row = map<string, string>

  // ---------------------------------------------------------------------------
  // Selecting the elements a predicate keeps
  // ---------------------------------------------------------------------------

  /** The elements of `xs` that `keep` holds for, in order. */
  function Select<T>(xs: seq<T>, keep: T -> bool): (r: seq<T>)
    ensures |r| <= |xs|
    decreases |xs|
  {
    if xs == [] then []
    else
      var init := Select(xs[..|xs| - 1], keep);
      if keep(xs[|xs| - 1]) then init + [xs[|xs| - 1]] else init
  }

  /** The positions `Select` keeps, in increasing order. */
  function Picked<T>(xs: seq<T>, keep: T -> bool): (ps: seq<nat>)
    ensures forall k | 0 <= k < |ps| :: ps[k] < |xs|
    decreases |xs|
  {
    if xs == [] then []
    else
      var init := Picked(xs[..|xs| - 1], keep);
      if keep(xs[|xs| - 1]) then init + [|xs| - 1] else init
  }

  /** `Select` is the order-preserving subsequence of exactly the elements
      that `keep` holds for: its `k`-th element is at the `k`-th picked
      position, the positions increase, and a position is picked exactly
      when `keep` holds there. */
  lemma SelectFacts<T>(xs: seq<T>, keep: T -> bool)
    ensures var r, ps := Select(xs, keep), Picked(xs, keep);
      && |r| == |ps|
      && (forall k | 0 <= k < |ps| :: r[k] == xs[ps[k]])
      && (forall k, l | 0 <= k < l < |ps| :: ps[k] < ps[l])
      && (forall i | 0 <= i < |xs| :: i in ps <==> keep(xs[i]))
  {
    SelectAtPicked(xs, keep);
    PickedIncreasing(xs, keep);
    PickedExactly(xs, keep);
  }

  lemma {:induction false} SelectAtPicked<T>(xs: seq<T>, keep: T -> bool)
    ensures var r, ps := Select(xs, keep), Picked(xs, keep);
      |r| == |ps| && forall k | 0 <= k < |ps| :: r[k] == xs[ps[k]]
    decreases |xs|
  {
    if xs != [] {
      var n := |xs| - 1;
      SelectAtPicked(xs[..n], keep);
      var ps0 := Picked(xs[..n], keep);
      forall k | 0 <= k < |ps0| ensures xs[..n][ps0[k]] == xs[ps0[k]] { }
    }
  }

  predicate Increasing(ps: seq<nat>) {
    forall k, l | 0 <= k < l < |ps| :: ps[k] < ps[l]
  }

  lemma {:induction false} PickedIncreasing<T>(xs: seq<T>, keep: T -> bool)
    ensures Increasing(Picked(xs, keep))
    decreases |xs|
  {
    if xs != [] {
      var n := |xs| - 1;
      PickedIncreasing(xs[..n], keep);
      var ps0 := Picked(xs[..n], keep);
      var ps := Picked(xs, keep);
      if keep(xs[n]) {
        assert ps == ps0 + [n];
        forall k, l | 0 <= k < l < |ps| ensures ps[k] < ps[l] {
          assert ps[k] == ps0[k] && ps0[k] < |xs[..n]| == n;
          if l < |ps0| {
            assert ps[l] == ps0[l];
          } else {
            assert ps[l] == n;
          }
        }
      } else {
        assert ps == ps0;
      }
    }
  }

  lemma {:induction false} PickedExactly<T>(xs: seq<T>, keep: T -> bool)
    ensures var ps := Picked(xs, keep); forall i | 0 <= i < |xs| :: i in ps <==> keep(xs[i])
    decreases |xs|
  {
    if xs != [] {
      var n := |xs| - 1;
      PickedExactly(xs[..n], keep);
      var ps0 := Picked(xs[..n], keep);
      var ps := Picked(xs, keep);
      assert n !in ps0;
      forall i | 0 <= i < |xs| ensures i in ps <==> keep(xs[i]) {
        if i < n {
          assert xs[..n][i] == xs[i];
          assert i in ps <==> i in ps0;
        }
      }
    }
  }

  /** Everything `Select` returns satisfies `keep`, and every element of
      `xs` satisfying `keep` is returned. */
  lemma SelectMembers<T>(xs: seq<T>, keep: T -> bool)
    ensures forall x | x in Select(xs, keep) :: x in xs && keep(x)
    ensures forall x | x in xs && keep(x) :: x in Select(xs, keep)
  {
    SelectFacts(xs, keep);
    var r, ps := Select(xs, keep), Picked(xs, keep);
    forall x | x in xs && keep(x) ensures x in r {
      var i :| 0 <= i < |xs| && xs[i] == x;
      var k :| 0 <= k < |ps| && ps[k] == i;
      assert r[k] == x;
    }
  }

  /** The selection loop of the source, with `keep` for its tests. */
  method SelectLoop<T>(xs: seq<T>, keep: T -> bool) returns (r: seq<T>)
    ensures r == Select(xs, keep)
  {
    r := [];
    var i := 0;
    while i < |xs|
      invariant i <= |xs|
      invariant r == Select(xs[..i], keep)
    {
      assert xs[..i + 1][..i] == xs[..i];
      if keep(xs[i]) {
        r := r + [xs[i]];
      }
      i := i + 1;
    }
    assert xs[..i] == xs;
  }

  // ---------------------------------------------------------------------------
  // parse_ymd_date
  // ---------------------------------------------------------------------------

  /** A calendar date, as `datetime.date` holds it. */
  datatype Date = Date(year: nat, month: nat, day: nat)

  /** Chronological order: `a < b` on dates. */
  predicate DateLess(a: Date, b: Date) {
    a.year < b.year || (a.year == b.year && (a.month < b.month || (a.month == b.month && a.day < b.day)))
  }

  predicate Leap(y: nat) { y % 4 == 0 && (y % 100 != 0 || y % 400 == 0) }

  function DaysIn(y: nat, m: nat): nat
    requires 1 <= m <= 12
  {
    if m == 2 then (if Leap(y) then 29 else 28)
    else if m == 4 || m == 6 || m == 9 || m == 11 then 30
    else 31
  }

  /** What `date.fromisoformat` accepts: years 1 to 9999, months 1 to 12,
      and days within the month of the proleptic Gregorian calendar. */
  predicate ValidDate(d: Date) {
    1 <= d.year <= 9999 && 1 <= d.month <= 12 && 1 <= d.day <= DaysIn(d.year, d.month)
  }

  /** `ADDED_AT_RE`, `^\d{4}-\d{2}-\d{2}$`, on a stripped string. */
  predicate YmdShape(s: string) {
    |s| == 10 && s[4] == '-' && s[7] == '-'
    && IsDigit(s[0]) && IsDigit(s[1]) && IsDigit(s[2]) && IsDigit(s[3])
    && IsDigit(s[5]) && IsDigit(s[6]) && IsDigit(s[8]) && IsDigit(s[9])
  }

  function Dig(c: char): nat
    requires IsDigit(c)
  {
    c as int - '0' as int
  }

  /** `parse_ymd_date(value)`: the date a stripped `YYYY-MM-DD` names,
      or none for an empty, malformed or impossible date. */
  function ParseYmd(value: string): (r: Option<Date>)
    ensures r.Some? ==> ValidDate(r.value)
  {
    var v := Strip(value);
    if v == [] || !YmdShape(v) then None
    else
      var d := Date(Dig(v[0]) * 1000 + Dig(v[1]) * 100 + Dig(v[2]) * 10 + Dig(v[3]),
                    Dig(v[5]) * 10 + Dig(v[6]), Dig(v[8]) * 10 + Dig(v[9]));
      if ValidDate(d) then Some(d) else None
  }

  /** `date.isoformat()`: four-digit year, two-digit month and day. */
  function FormatYmd(d: Date): (s: string)
    requires d.year < 10000 && d.month < 100 && d.day < 100
    ensures |s| == 10
  {
    [DigitChar(d.year / 1000), DigitChar(d.year / 100 % 10), DigitChar(d.year / 10 % 10), DigitChar(d.year % 10),
     '-', DigitChar(d.month / 10), DigitChar(d.month % 10), '-', DigitChar(d.day / 10), DigitChar(d.day % 10)]
  }

  lemma DigOfDigitChar(d: nat)
    requires d < 10
    ensures Dig(DigitChar(d)) == d
  {
  }

  lemma DigitCharOfDig(c: char)
    requires IsDigit(c)
    ensures DigitChar(Dig(c)) == c
  {
  }

  /** The decimal digits of `y < 10000`, most significant first. */
  lemma FourDigits(y: nat)
    requires y < 10000
    ensures (y / 1000) * 1000 + (y / 100 % 10) * 100 + (y / 10 % 10) * 10 + y % 10 == y
    ensures y / 1000 < 10
  {
    var q1 := y / 10;
    var q2 := q1 / 10;
    var q3 := q2 / 10;
    assert y == q1 * 10 + y % 10;
    assert q1 == q2 * 10 + q1 % 10;
    assert q2 == q3 * 10 + q2 % 10;
    assert q2 == y / 100 && q3 == y / 1000;
  }

  lemma TwoDigits(m: nat)
    requires m < 100
    ensures (m / 10) * 10 + m % 10 == m && m / 10 < 10
  {
  }

  /** The number four digits spell has them as its decimal digits. */
  lemma DigitsOfFour(a: nat, b: nat, c: nat, e: nat)
    requires a < 10 && b < 10 && c < 10 && e < 10
    ensures var y := a * 1000 + b * 100 + c * 10 + e;
      y / 1000 == a && y / 100 % 10 == b && y / 10 % 10 == c && y % 10 == e
  {
    var y := a * 1000 + b * 100 + c * 10 + e;
    assert y == (a * 100 + b * 10 + c) * 10 + e;
    assert y / 10 == a * 100 + b * 10 + c;
    assert y / 10 == (a * 10 + b) * 10 + c;
    assert y / 100 == (y / 10) / 10;
    assert y / 100 == a * 10 + b;
    assert y / 1000 == (y / 100) / 10;
  }

  lemma DigitsOfTwo(a: nat, b: nat)
    requires a < 10 && b < 10
    ensures (a * 10 + b) / 10 == a && (a * 10 + b) % 10 == b
  {
  }

  /** A valid date's ISO text parses back to it. */
  lemma ParseFormat(d: Date)
    requires ValidDate(d)
    ensures ParseYmd(FormatYmd(d)) == Some(d)
  {
    var s := FormatYmd(d);
    StripUnchanged(s);
    FourDigits(d.year);
    TwoDigits(d.month);
    TwoDigits(d.day);
    DigOfDigitChar(d.year / 1000);
    DigOfDigitChar(d.year / 100 % 10);
    DigOfDigitChar(d.year / 10 % 10);
    DigOfDigitChar(d.year % 10);
    DigOfDigitChar(d.month / 10);
    DigOfDigitChar(d.month % 10);
    DigOfDigitChar(d.day / 10);
    DigOfDigitChar(d.day % 10);
  }

  /** A parsed date is valid, and the stripped text is its ISO form. */
  lemma ParsedIsFormat(value: string)
    requires ParseYmd(value).Some?
    ensures var d := ParseYmd(value).value; ValidDate(d) && FormatYmd(d) == Strip(value)
  {
    var v := Strip(value);
    var d := ParseYmd(value).value;
    DigitsOfFour(Dig(v[0]), Dig(v[1]), Dig(v[2]), Dig(v[3]));
    DigitsOfTwo(Dig(v[5]), Dig(v[6]));
    DigitsOfTwo(Dig(v[8]), Dig(v[9]));
    DigitCharOfDig(v[0]);
    DigitCharOfDig(v[1]);
    DigitCharOfDig(v[2]);
    DigitCharOfDig(v[3]);
    DigitCharOfDig(v[5]);
    DigitCharOfDig(v[6]);
    DigitCharOfDig(v[8]);
    DigitCharOfDig(v[9]);
    var s := FormatYmd(d);
    assert s == v;
  }

  lemma DateTotal(a: Date, b: Date)
    ensures DateLess(a, b) || DateLess(b, a) || a == b
    ensures !(DateLess(a, b) && DateLess(b, a))
  {
  }

  // ---------------------------------------------------------------------------
  // Python's int() on a string
  // ---------------------------------------------------------------------------

  /** The digits of an `int()` literal: ASCII digits, with single
      underscores allowed between them. */
  predicate IntDigits(s: string) {
    s != [] && IsDigit(s[0]) && IsDigit(s[|s| - 1])
    && (forall i | 0 <= i < |s| :: IsDigit(s[i]) || s[i] == '_')
    && NoDoubleUnderscore(s)
  }

  /** The value of digits, underscores skipped. */
  function IntValue(s: string): nat
    requires forall i | 0 <= i < |s| :: IsDigit(s[i]) || s[i] == '_'
    decreases |s|
  {
    if s == [] then 0
    else if s[|s| - 1] == '_' then IntValue(s[..|s| - 1])
    else IntValue(s[..|s| - 1]) * 10 + Dig(s[|s| - 1])
  }

  /** `int(s)`: surrounding whitespace, an optional sign, then digits; none
      where Python raises `ValueError`. */
  function ParseInt(s: string): (r: Option<int>)
  {
    var t := Strip(s);
    if t != [] && (t[0] == '+' || t[0] == '-') then
      var body := t[1..];
      if IntDigits(body) then
        var v: int := IntValue(body);
        Some(if t[0] == '-' then -v else v)
      else None
    else if IntDigits(t) then Some(IntValue(t))
    else None
  }

  lemma {:induction false} IntValueOfNat(n: nat)
    ensures IntValue(NatToString(n)) == n
    decreases n
  {
    if n >= 10 {
      var s := NatToString(n);
      assert s[..|s| - 1] == NatToString(n / 10);
      IntValueOfNat(n / 10);
    }
  }

  /** `int(str(n)) == n` and `int("-" + str(n)) == -n`. */
  lemma ParseIntOfNat(n: nat)
    ensures ParseInt(NatToString(n)) == Some(n)
    ensures ParseInt("-" + NatToString(n)) == Some(-(n as int))
  {
    ParsePositive(n);
    ParseNegative(n);
  }

  lemma ParsePositive(n: nat)
    ensures ParseInt(NatToString(n)) == Some(n)
  {
    var s := NatToString(n);
    NatStringDigits(n);
    IntValueOfNat(n);
    StripUnchanged(s);
  }

  lemma ParseNegative(n: nat)
    ensures ParseInt("-" + NatToString(n)) == Some(-(n as int))
  {
    var s := NatToString(n);
    NatStringDigits(n);
    IntValueOfNat(n);
    var m := "-" + s;
    assert m[|m| - 1] == s[|s| - 1] && IsDigit(s[|s| - 1]);
    StripUnchanged(m);
    assert m[1..] == s;
  }

  lemma NatStringDigits(n: nat)
    ensures IntDigits(NatToString(n))
  {
    var s := NatToString(n);
    forall i | 1 <= i < |s| ensures !UnderscorePairAt(s, i) {
      assert IsDigit(s[i]);
    }
  }

  // ---------------------------------------------------------------------------
  // filter_rows
  // ---------------------------------------------------------------------------

  /** The arguments of `filter_rows`. A text needle that is empty stands for
      one not given, as the source treats both alike. */
  datatype Filters = Filters(yearFrom: Option<int>, yearTo: Option<int>, journal: string, keyword: string,
                             myKeyword: string, addedFrom: Option<Date>, addedTo: Option<Date>, unreadOnly: bool)

  /** `if year_from or year_to`: a bound of 0 is falsy and does not turn the
      year test on by itself. */
  predicate YearFilterOn(q: Filters) {
    (q.yearFrom.Some? && q.yearFrom.value != 0) || (q.yearTo.Some? && q.yearTo.value != 0)
  }

  /** `match_year`: the year column (`"0"` when absent) parses as an int
      within the bounds that are given. */
  predicate MatchYear(row: Row, q: Filters) {
    match ParseInt(GetOr(row, "year", "0"))
    case None => false
    case Some(y) => (q.yearFrom.None? || q.yearFrom.value <= y) && (q.yearTo.None? || y <= q.yearTo.value)
  }

  /** `match_text`: case-insensitive substring. */
  predicate MatchText(field: string, needle: string) {
    needle == [] || Contains(Lower(field), Lower(needle))
  }

  predicate DateFilterOn(q: Filters) { q.addedFrom.Some? || q.addedTo.Some? }

  /** `match_added`: the row has a valid `added_at` within the bounds. */
  predicate MatchAdded(row: Row, q: Filters) {
    match ParseYmd(Get(row, "added_at"))
    case None => false
    case Some(d) => (q.addedFrom.None? || !DateLess(d, q.addedFrom.value))
                    && (q.addedTo.None? || !DateLess(q.addedTo.value, d))
  }

  /** Whether `filter_rows` keeps a row: it passes every active test. */
  predicate Keeps(q: Filters, row: Row) {
    && (YearFilterOn(q) ==> MatchYear(row, q))
    && (q.journal != [] ==> MatchText(Get(row, "journal"), q.journal))
    && (q.keyword != [] ==> MatchText(Get(row, "keywords"), q.keyword))
    && (q.myKeyword != [] ==> MatchText(Get(row, "my_keywords"), q.myKeyword))
    && (DateFilterOn(q) ==> MatchAdded(row, q))
    && (q.unreadOnly ==> Strip(Get(row, "unread")) == "1")
  }

  function KeepsFor(q: Filters): Row -> bool {
    row => Keeps(q, row)
  }

  /** `filter_rows(rows, …)`. */
  function Filtered(rows: seq<Row>, q: Filters): seq<Row> {
    Select(rows, KeepsFor(q))
  }

  /** `filter_rows` returns, in order, exactly the rows passing every active
      test: with a date bound only rows with a valid `added_at` in range,
      with `unread_only` only rows whose stripped `unread` is `"1"`, and
      every row that passes is returned. */
  lemma FilteredFacts(rows: seq<Row>, q: Filters)
    ensures var r := Filtered(rows, q);
      && (forall row | row in r :: row in rows && Keeps(q, row))
      && (forall row | row in rows && Keeps(q, row) :: row in r)
      && (DateFilterOn(q) ==> forall row | row in r :: ParseYmd(Get(row, "added_at")).Some?)
      && (q.unreadOnly ==> forall row | row in r :: Strip(Get(row, "unread")) == "1")
  {
    SelectMembers(rows, KeepsFor(q));
  }

  /** `filter_rows` keeps the order of the rows it returns: they are the rows
      at increasing positions, which are exactly the positions of rows that
      pass. */
  lemma FilteredOrder(rows: seq<Row>, q: Filters)
    ensures var r, ps := Filtered(rows, q), Picked(rows, KeepsFor(q));
      && |r| == |ps|
      && (forall k | 0 <= k < |ps| :: r[k] == rows[ps[k]])
      && (forall k, l | 0 <= k < l < |ps| :: ps[k] < ps[l])
      && (forall i | 0 <= i < |rows| :: i in ps <==> Keeps(q, rows[i]))
  {
    SelectFacts(rows, KeepsFor(q));
  }

  /** The loop of `filter_rows`. */
  method FilterRows(rows: seq<Row>, q: Filters) returns (filtered: seq<Row>)
    ensures filtered == Filtered(rows, q)
  {
    filtered := SelectLoop(rows, KeepsFor(q));
  }

  /** With only `unread_only`, the unread rows are kept and the others
      dropped. */
  lemma UnreadOnlyExample()
    ensures Filtered([map["code" := "a", "unread" := ""], map["code" := "b", "unread" := "1"],
                      map["code" := "c", "unread" := "0"]],
                     Filters(None, None, "", "", "", None, None, true))
            == [map["code" := "b", "unread" := "1"]]
  {
    var a, b, c := map["code" := "a", "unread" := ""], map["code" := "b", "unread" := "1"],
                   map["code" := "c", "unread" := "0"];
    var q := Filters(None, None, "", "", "", None, None, true);
    var keep := KeepsFor(q);
    StripUnchanged(Get(b, "unread"));
    StripUnchanged(Get(c, "unread"));
    assert Strip(Get(a, "unread")) == [];
    assert Strip(Get(b, "unread")) == "1";
    assert Strip(Get(c, "unread")) == "0";
    assert !keep(a) && keep(b) && !keep(c);
    assert [a, b, c][..2] == [a, b] && [a, b][..1] == [a] && [a][..0] == [];
    assert Select([a], keep) == [];
    assert Select([a, b], keep) == [b];
    assert Select([a, b, c], keep) == [b];
  }

  // ---------------------------------------------------------------------------
  // sort_rows_by_added
  // ---------------------------------------------------------------------------

  /** A dated row with its position in the input. */
  datatype Dated = Dated(date: Date, pos: nat, row: Row)

  /** The `(parsed, row)` pairs of `sort_rows_by_added`, in input order. */
  function DatedRows(rows: seq<Row>): (ds: seq<Dated>)
    ensures forall k | 0 <= k < |ds| :: ds[k].pos < |rows|
    decreases |rows|
  {
    if rows == [] then []
    else
      var n := |rows| - 1;
      var init := DatedRows(rows[..n]);
      match ParseYmd(Get(rows[n], "added_at"))
      case None => init
      case Some(d) => init + [Dated(d, n, rows[n])]
  }

  predicate Undated(row: Row) { ParseYmd(Get(row, "added_at")).None? }

  /** The `missing` rows of `sort_rows_by_added`. */
  function Missing(rows: seq<Row>): seq<Row> {
    Select(rows, Undated)
  }

  /** Sort order on dates; with `reverse=True` the later date first. */
  predicate Before(a: Dated, b: Dated, descending: bool) {
    if descending then DateLess(b.date, a.date) else DateLess(a.date, b.date)
  }

  /** A stable sort's order: by date, and by input position among equal
      dates. */
  predicate InOrder(a: Dated, b: Dated, descending: bool) {
    Before(a, b, descending) || (a.date == b.date && a.pos < b.pos)
  }

  predicate Ordered(ds: seq<Dated>, descending: bool) {
    forall i, j | 0 <= i < j < |ds| :: InOrder(ds[i], ds[j], descending)
  }

  /** Inserting `x` after every element it does not sort before. */
  function Insert(x: Dated, ds: seq<Dated>, descending: bool): (r: seq<Dated>)
    ensures |r| == |ds| + 1
    ensures multiset(r) == multiset(ds) + multiset{x}
  {
    if ds == [] then [x]
    else if Before(x, ds[0], descending) then [x] + ds
    else
      assert ds == [ds[0]] + ds[1..];
      [ds[0]] + Insert(x, ds[1..], descending)
  }

  /** `list.sort(key=date, reverse=descending)`, a stable sort. */
  function SortDated(ds: seq<Dated>, descending: bool): (r: seq<Dated>)
    ensures |r| == |ds|
    ensures multiset(r) == multiset(ds)
    decreases |ds|
  {
    if ds == [] then []
    else
      var n := |ds| - 1;
      assert ds == ds[..n] + [ds[n]];
      Insert(ds[n], SortDated(ds[..n], descending), descending)
  }

  function RowsOf(ds: seq<Dated>): (rs: seq<Row>)
    ensures |rs| == |ds|
    ensures forall k | 0 <= k < |ds| :: rs[k] == ds[k].row
  {
    seq(|ds|, k requires 0 <= k < |ds| => ds[k].row)
  }

  /** `sort_rows_by_added(rows, descending)`. */
  function SortedByAdded(rows: seq<Row>, descending: bool): seq<Row> {
    RowsOf(SortDated(DatedRows(rows), descending)) + Missing(rows)
  }

  lemma InsertOrdered(x: Dated, ds: seq<Dated>, descending: bool)
    requires Ordered(ds, descending)
    requires forall k | 0 <= k < |ds| :: ds[k].pos < x.pos
    ensures Ordered(Insert(x, ds, descending), descending)
    decreases |ds|
  {
    if ds != [] {
      if Before(x, ds[0], descending) {
        forall j | 0 <= j < |ds| ensures InOrder(x, ds[j], descending) {
          if j > 0 {
            BeforeThen(x, ds[0], ds[j], descending);
          }
        }
        ConsOrdered(x, ds, descending);
      } else {
        InsertOrdered(x, ds[1..], descending);
        var t := Insert(x, ds[1..], descending);
        assert InOrder(ds[0], x, descending) by {
          DateTotal(x.date, ds[0].date);
        }
        forall j | 0 <= j < |t| ensures InOrder(ds[0], t[j], descending) {
          assert t[j] in multiset(t);
          assert t[j] == x || t[j] in multiset(ds[1..]);
        }
        ConsOrdered(ds[0], t, descending);
      }
    }
  }

  /** An element in order with every later one heads an ordered sequence. */
  lemma ConsOrdered(h: Dated, t: seq<Dated>, descending: bool)
    requires Ordered(t, descending)
    requires forall j | 0 <= j < |t| :: InOrder(h, t[j], descending)
    ensures Ordered([h] + t, descending)
  {
    var r := [h] + t;
    forall i, j | 0 <= i < j < |r| ensures InOrder(r[i], r[j], descending) {
      assert r[j] == t[j - 1];
      if i > 0 {
        assert r[i] == t[i - 1];
      }
    }
  }

  /** Sorting before an element keeps one before everything it precedes. */
  lemma BeforeThen(a: Dated, b: Dated, c: Dated, descending: bool)
    requires Before(a, b, descending) && InOrder(b, c, descending)
    ensures InOrder(a, c, descending)
  {
  }

  lemma {:induction false} SortDatedOrdered(ds: seq<Dated>, descending: bool)
    requires PosIncreasing(ds)
    ensures Ordered(SortDated(ds, descending), descending)
    decreases |ds|
  {
    if ds != [] {
      var n := |ds| - 1;
      SortDatedOrdered(ds[..n], descending);
      var s := SortDated(ds[..n], descending);
      forall k | 0 <= k < |s| ensures s[k].pos < ds[n].pos {
        assert s[k] in multiset(ds[..n]);
      }
      InsertOrdered(ds[n], s, descending);
    }
  }

  predicate PosIncreasing(ds: seq<Dated>) {
    forall i, j | 0 <= i < j < |ds| :: ds[i].pos < ds[j].pos
  }

  /** The positions of the dated rows increase. */
  lemma {:induction false} DatedRowsIncreasing(rows: seq<Row>)
    ensures PosIncreasing(DatedRows(rows))
    decreases |rows|
  {
    if rows != [] {
      var n := |rows| - 1;
      DatedRowsIncreasing(rows[..n]);
      var ds0 := DatedRows(rows[..n]);
      match ParseYmd(Get(rows[n], "added_at"))
      case None =>
      case Some(d) =>
        var ds := ds0 + [Dated(d, n, rows[n])];
        assert DatedRows(rows) == ds;
        forall i, j | 0 <= i < j < |ds| ensures ds[i].pos < ds[j].pos {
          assert ds[i] == ds0[i] && ds0[i].pos < |rows[..n]|;
          if j < |ds0| {
            assert ds[j] == ds0[j];
          }
        }
    }
  }

  /** Each of `ds` is the row of `rows` at its position, with its parsed
      date. */
  predicate DatedFrom(rows: seq<Row>, ds: seq<Dated>) {
    forall k | 0 <= k < |ds| :: ds[k].pos < |rows| && ds[k].row == rows[ds[k].pos]
                                && ParseYmd(Get(ds[k].row, "added_at")) == Some(ds[k].date)
  }

  lemma {:induction false} DatedRowsAt(rows: seq<Row>)
    ensures DatedFrom(rows, DatedRows(rows))
    decreases |rows|
  {
    if rows != [] {
      var n := |rows| - 1;
      DatedRowsAt(rows[..n]);
      var ds0 := DatedRows(rows[..n]);
      assert DatedFrom(rows, ds0) by {
        forall k | 0 <= k < |ds0| ensures rows[..n][ds0[k].pos] == rows[ds0[k].pos] { }
      }
      match ParseYmd(Get(rows[n], "added_at"))
      case None =>
      case Some(d) =>
        var ds := ds0 + [Dated(d, n, rows[n])];
        assert DatedRows(rows) == ds;
        forall k | 0 <= k < |ds| ensures ds[k].pos < |rows| && ds[k].row == rows[ds[k].pos]
                                         && ParseYmd(Get(ds[k].row, "added_at")) == Some(ds[k].date) {
          if k < |ds0| {
            assert ds[k] == ds0[k];
          }
        }
    }
  }

  /** The dated and the undated rows together are the input rows. */
  lemma {:induction false} DatedRowsSplit(rows: seq<Row>)
    ensures multiset(RowsOf(DatedRows(rows))) + multiset(Missing(rows)) == multiset(rows)
    decreases |rows|
  {
    if rows != [] {
      var n := |rows| - 1;
      DatedRowsSplit(rows[..n]);
      assert rows == rows[..n] + [rows[n]];
      var ds0 := DatedRows(rows[..n]);
      match ParseYmd(Get(rows[n], "added_at"))
      case None =>
      case Some(d) =>
        RowsOfSnoc(ds0, Dated(d, n, rows[n]));
    }
  }

  lemma RowsOfSnoc(ds: seq<Dated>, x: Dated)
    ensures RowsOf(ds + [x]) == RowsOf(ds) + [x.row]
  {
  }

  lemma RowsOfCons(x: Dated, ds: seq<Dated>)
    ensures RowsOf([x] + ds) == [x.row] + RowsOf(ds)
  {
  }

  lemma {:induction false} InsertRows(x: Dated, ds: seq<Dated>, descending: bool)
    ensures multiset(RowsOf(Insert(x, ds, descending))) == multiset(RowsOf(ds)) + multiset{x.row}
    decreases |ds|
  {
    if ds != [] {
      if Before(x, ds[0], descending) {
        RowsOfCons(x, ds);
      } else {
        InsertRows(x, ds[1..], descending);
        RowsOfCons(ds[0], Insert(x, ds[1..], descending));
        RowsOfCons(ds[0], ds[1..]);
        assert ds == [ds[0]] + ds[1..];
      }
    }
  }

  lemma {:induction false} SortDatedRows(ds: seq<Dated>, descending: bool)
    ensures multiset(RowsOf(SortDated(ds, descending))) == multiset(RowsOf(ds))
    decreases |ds|
  {
    if ds != [] {
      var n := |ds| - 1;
      SortDatedRows(ds[..n], descending);
      InsertRows(ds[n], SortDated(ds[..n], descending), descending);
      RowsOfSnoc(ds[..n], ds[n]);
      assert ds == ds[..n] + [ds[n]];
    }
  }

  /** `sort_rows_by_added` returns a permutation of its input: first the
      validly dated rows, each with its parsed date, ordered by date
      (latest first when `descending`) and by input position among equal
      dates; then the undated rows in input order. */
  lemma SortedByAddedFacts(rows: seq<Row>, descending: bool)
    ensures var sorted := SortDated(DatedRows(rows), descending);
      && SortedByAdded(rows, descending) == RowsOf(sorted) + Missing(rows)
      && Ordered(sorted, descending)
      && (forall k | 0 <= k < |sorted| :: sorted[k].pos < |rows| && sorted[k].row == rows[sorted[k].pos]
                                          && ParseYmd(Get(sorted[k].row, "added_at")) == Some(sorted[k].date))
      && multiset(SortedByAdded(rows, descending)) == multiset(rows)
  {
    var ds := DatedRows(rows);
    var sorted := SortDated(ds, descending);
    DatedRowsIncreasing(rows);
    DatedRowsAt(rows);
    DatedRowsSplit(rows);
    SortDatedOrdered(ds, descending);
    SortDatedRows(ds, descending);
    forall k | 0 <= k < |sorted|
      ensures sorted[k].pos < |rows| && sorted[k].row == rows[sorted[k].pos] && ParseYmd(Get(sorted[k].row, "added_at")) == Some(sorted[k].date)
    {
      assert sorted[k] in multiset(ds);
    }
  }

  /** The partition loop of `sort_rows_by_added`, then the sort and the
      concatenation. */
  method SortRowsByAdded(rows: seq<Row>, descending: bool) returns (result: seq<Row>)
    ensures result == SortedByAdded(rows, descending)
  {
    var dated: seq<Dated> := [];
    var missing: seq<Row> := [];
    var i := 0;
    while i < |rows|
      invariant i <= |rows|
      invariant dated == DatedRows(rows[..i])
      invariant missing == Missing(rows[..i])
    {
      assert rows[..i + 1][..i] == rows[..i];
      var parsed := ParseYmd(Get(rows[i], "added_at"));
      if parsed.None? {
        missing := missing + [rows[i]];
      } else {
        dated := dated + [Dated(parsed.value, i, rows[i])];
      }
      i := i + 1;
    }
    assert rows[..i] == rows;
    result := RowsOf(SortDated(dated, descending)) + missing;
  }
}
