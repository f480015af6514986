/** `parse_bibtex_entries` (CODE/bib.py:1175-1256): an index-based scanner
    over BibTeX text. Each `@` opens an entry whose body runs from the next
    `{` to the brace that brings the depth back to zero; the body's text up
    to its first comma is the key, and the rest is a list of
    `name = value` fields. */
module Bibtex {
  import opened Text

  /** One parsed entry: `_key` plus the lower-cased field names. */
  type Entry = map<string, string>

  // ---------------------------------------------------------------------------
  // Scanning primitives
  // ---------------------------------------------------------------------------

  /** `s.find(c, k)`, with `|s|` for no occurrence. */
  function FindFrom(s: string, c: char, k: nat): (j: nat)
    requires k <= |s|
    decreases |s| - k
    ensures k <= j <= |s|
    ensures j < |s| ==> s[j] == c
    ensures forall m | k <= m < j :: s[m] != c
  {
    if k == |s| || s[k] == c then k else FindFrom(s, c, k + 1)
  }

  /** The brace scan from `j` at nesting `depth`: the index of the `}` that
      brings the depth down to zero, or `|s|` when there is none. */
  function CloseFrom(s: string, j: nat, depth: int): (e: nat)
    requires j <= |s|
    decreases |s| - j
    ensures j <= e <= |s|
    ensures e < |s| ==> s[e] == '}'
    ensures j < |s| && s[j] == '{' ==> e > j
  {
    if j == |s| then |s|
    else if s[j] == '{' then CloseFrom(s, j + 1, depth + 1)
    else if s[j] == '}' then (if depth - 1 == 0 then j else CloseFrom(s, j + 1, depth - 1))
    else CloseFrom(s, j + 1, depth)
  }

  /** The end of the run of characters in `cs` starting at `k`. */
  function SkipIn(s: string, k: nat, cs: set<char>): (j: nat)
    requires k <= |s|
    decreases |s| - k
    ensures k <= j <= |s|
    ensures forall m | k <= m < j :: s[m] in cs
    ensures j < |s| ==> s[j] !in cs
  {
    if k < |s| && s[k] in cs then SkipIn(s, k + 1, cs) else k
  }

  /** The first index at or after `k` holding a character of `cs`, or `|s|`. */
  function SkipOut(s: string, k: nat, cs: set<char>): (j: nat)
    requires k <= |s|
    decreases |s| - k
    ensures k <= j <= |s|
    ensures forall m | k <= m < j :: s[m] !in cs
    ensures j < |s| ==> s[j] in cs
  {
    if k < |s| && s[k] !in cs then SkipOut(s, k + 1, cs) else k
  }

  /** What separates fields: `" \t\r\n,"`. */
  function FieldGap(): set<char> { {' ', '\t', '\r', '\n', ','} }

  /** What may stand between `=` and a value: `" \t\r\n"`. */
  function ValueGap(): set<char> { {' ', '\t', '\r', '\n'} }

  /** Where a field name ends: `"=\n"`. */
  function NameEnd(): set<char> { {'=', '\n'} }

  /** Where a bare value ends: `",\n"`. */
  function BareEnd(): set<char> { {',', '\n'} }

  // ---------------------------------------------------------------------------
  // Fields
  // ---------------------------------------------------------------------------

  /** A value starting at `d`, before stripping, and where the scan goes on.
      A braced value runs to its matching brace, a quoted one to the next
      `"`, a bare one to the next comma or newline. */
  function ValueAt(f: string, d: nat): (v: (string, nat))
    requires d < |f|
    ensures v.1 >= d && v.1 <= |f| + 1
  {
    if f[d] == '{' then
      var e := CloseFrom(f, d, 0);
      (f[d + 1..e], e + 1)
    else if f[d] == '"' then
      var e := SkipOut(f, d + 1, {'"'});
      (f[d + 1..e], e + 1)
    else
      var e := SkipOut(f, d, BareEnd());
      (f[d..e], e)
  }

  /** A name the scan reads: `fields[name_start:k].strip().lower()`. */
  function FieldName(f: string, a: nat, b: nat): string
    requires a <= b <= |f|
  {
    Lower(Strip(f[a..b]))
  }

  /** A value as stored: stripped, then `re.sub(r"\s+", " ", value)`. */
  function StoredValue(raw: string): string
  {
    SquashSpaces(Strip(raw))
  }

  /** One turn of the field loop from `k`: the name and the raw value it
      reads and where the scan goes on, or `Done` when the loop stops. */
  datatype FieldScan = Done | Field(name: string, raw: string, next: nat)

  /** One turn of the field loop from `k`. It stops at the end of the
      text, at an empty name, at a name with no `=` after it, or at a `=`
      with nothing after it. */
  function FieldStep(f: string, k: nat): (st: FieldScan)
    requires k < |f|
    ensures st.Field? ==> st.next > k && st.name != [] && NoUpper(st.name)
  {
    var a := SkipIn(f, k, FieldGap());
    if a >= |f| then Done
    else
      var b := SkipOut(f, a, NameEnd());
      var name := FieldName(f, a, b);
      if name == [] then Done
      else
        var c := SkipOut(f, b, {'='});
        if c >= |f| then Done
        else
          var d := SkipIn(f, c + 1, ValueGap());
          if d >= |f| then Done
          else
            var v := ValueAt(f, d);
            LowerHasNoUpper(Strip(f[a..b]));
            Field(name, v.0, v.1)
  }

  /** The field loop from `k`, adding to `entry`. */
  function FieldsFrom(f: string, k: nat, entry: Entry): (r: Entry)
    decreases if k <= |f| then |f| - k else 0
  {
    if k >= |f| then entry
    else
      match FieldStep(f, k)
      case Done => entry
      case Field(name, raw, next) => FieldsFrom(f, next, entry[name := StoredValue(raw)])
  }

  /** The entry of a body whose first comma is at `comma`. */
  function EntryOf(body: string, comma: nat): Entry
    requires comma < |body|
  {
    FieldsFrom(body[comma + 1..], 0, map["_key" := Strip(body[..comma])])
  }

  // ---------------------------------------------------------------------------
  // Entries
  // ---------------------------------------------------------------------------

  /** One turn of the outer loop at an `@`. */
  datatype EntryScan = Stop | Skip(next: nat) | Emit(entry: Entry, next: nat)

  /** The entry at the `@` at `i`: an `@` without a later `{`, or whose
      braces never close, ends the scan; a body without a comma is
      skipped. */
  function EntryStep(text: string, i: nat): (st: EntryScan)
    requires i < |text| && text[i] == '@'
    ensures !st.Stop? ==> i < st.next <= |text|
  {
    var brace := FindFrom(text, '{', i);
    if brace == |text| then Stop
    else
      var j := CloseFrom(text, brace, 0);
      if j == |text| then Stop
      else
        var body := text[brace + 1..j];
        var comma := FindFrom(body, ',', 0);
        if comma == |body| then Skip(j + 1)
        else Emit(EntryOf(body, comma), j + 1)
  }

  /** The outer loop from `i`. */
  function EntriesFrom(text: string, i: nat): (es: seq<Entry>)
    requires i <= |text|
    decreases |text| - i
  {
    if i == |text| then []
    else if text[i] != '@' then EntriesFrom(text, i + 1)
    else
      match EntryStep(text, i)
      case Stop => []
      case Skip(next) => EntriesFrom(text, next)
      case Emit(e, next) => [e] + EntriesFrom(text, next)
  }

  /** `parse_bibtex_entries(text)`. */
  function ParseEntries(text: string): seq<Entry>
  {
    EntriesFrom(text, 0)
  }

  // ---------------------------------------------------------------------------
  // What the parser guarantees
  // ---------------------------------------------------------------------------

  /** A field the loop added: a non-empty lower-case name with a
      whitespace-collapsed value. */
  predicate ParsedField(e: Entry, n: string)
    requires n in e
  {
    n != [] && NoUpper(n) && IsCollapsed(e[n])
  }

  /** The field loop keeps every name of `entry`, and whatever it adds or
      overwrites is a parsed field. */
  lemma {:induction false} FieldsFromFacts(f: string, k: nat, entry: Entry)
    ensures entry.Keys <= FieldsFrom(f, k, entry).Keys
    ensures var r := FieldsFrom(f, k, entry);
      forall n | n in r :: (n in entry && r[n] == entry[n]) || ParsedField(r, n)
    decreases if k <= |f| then |f| - k else 0
  {
    if k < |f| {
      match FieldStep(f, k)
      case Done =>
      case Field(name, raw, next) =>
        StoredCollapsed(raw);
        FieldsFromFacts(f, next, entry[name := StoredValue(raw)]);
    }
  }

  lemma LowerHasNoUpper(s: string)
    ensures NoUpper(Lower(s))
  {
    forall i | 0 <= i < |s| ensures !IsUpperChar(Lower(s)[i]) {
      assert Lower(s)[i] == LowerChar(s[i]);
    }
  }

  /** A stored value is stripped and has single spaces only. */
  lemma StoredCollapsed(raw: string)
    ensures IsCollapsed(StoredValue(raw))
  {
    var y := Strip(raw);
    StripFacts(raw);
    var r := SquashSpaces(y);
    if y != [] {
      SquashLast(y);
      assert !IsSpace(y[0]) && !IsSpace(y[|y| - 1]);
    }
  }

  /** Squashing ends in a space exactly when the input ends in whitespace. */
  lemma {:induction false} SquashLast(s: string)
    requires s != []
    ensures var r := SquashSpaces(s); r != [] && (r[|r| - 1] == ' ' <==> IsSpace(s[|s| - 1]))
    decreases |s|
  {
    if IsSpace(s[0]) {
      var t := DropSpaces(s);
      DropSpacesSuffix(s);
      if t != [] {
        SquashLast(t);
        assert t[|t| - 1] == s[|s| - 1];
      } else {
        assert IsSpace(s[|s| - 1]);
      }
    } else if |s| > 1 {
      SquashLast(s[1..]);
      assert s[1..][|s| - 2] == s[|s| - 1];
    }
  }

  /** Every entry carries `_key`, and every other field it has is a parsed
      field: a non-empty lower-case name with a collapsed value. */
  lemma {:induction false} EntriesFacts(text: string, i: nat)
    requires i <= |text|
    ensures forall e | e in EntriesFrom(text, i) :: "_key" in e
    ensures forall e, n | e in EntriesFrom(text, i) && n in e && n != "_key" :: ParsedField(e, n)
    decreases |text| - i
  {
    if i < |text| {
      if text[i] != '@' {
        EntriesFacts(text, i + 1);
      } else {
        match EntryStep(text, i)
        case Stop =>
        case Skip(next) =>
          EntriesFacts(text, next);
        case Emit(e, next) =>
          EntriesFacts(text, next);
          EmittedEntry(text, i);
      }
    }
  }

  /** An emitted entry has `_key`, and its other names are parsed fields. */
  lemma EntryOfFacts(body: string, comma: nat)
    requires comma < |body|
    ensures "_key" in EntryOf(body, comma)
    ensures var e := EntryOf(body, comma);
      forall n | n in e && n != "_key" :: ParsedField(e, n)
  {
    FieldsFromFacts(body[comma + 1..], 0, map["_key" := Strip(body[..comma])]);
  }

  /** The entry `EntryStep` emits is the one of its body. */
  lemma EmittedEntry(text: string, i: nat)
    requires i < |text| && text[i] == '@'
    requires EntryStep(text, i).Emit?
    ensures "_key" in EntryStep(text, i).entry
    ensures var e := EntryStep(text, i).entry;
      forall n | n in e && n != "_key" :: ParsedField(e, n)
  {
    var brace := FindFrom(text, '{', i);
    var j := CloseFrom(text, brace, 0);
    var body := text[brace + 1..j];
    var comma := FindFrom(body, ',', 0);
    EntryOfFacts(body, comma);
  }

  /** The number of `@` characters of `s` at or after `i`. */
  function AtSigns(s: string, i: nat): (n: nat)
    requires i <= |s|
    decreases |s| - i
  {
    if i == |s| then 0 else (if s[i] == '@' then 1 else 0) + AtSigns(s, i + 1)
  }

  lemma {:induction false} AtSignsMonotone(s: string, i: nat, j: nat)
    requires i <= j <= |s|
    ensures AtSigns(s, j) <= AtSigns(s, i)
    decreases j - i
  {
    if i < j {
      AtSignsMonotone(s, i + 1, j);
    }
  }

  /** Each entry consumes its own `@`: there are never more entries than
      `@` characters. */
  lemma {:induction false} EntriesBound(text: string, i: nat)
    requires i <= |text|
    ensures |EntriesFrom(text, i)| <= AtSigns(text, i)
    decreases |text| - i
  {
    if i < |text| {
      if text[i] != '@' {
        EntriesBound(text, i + 1);
      } else {
        match EntryStep(text, i)
        case Stop =>
        case Skip(next) =>
          EntriesBound(text, next);
          AtSignsMonotone(text, i + 1, next);
        case Emit(e, next) =>
          EntriesBound(text, next);
          AtSignsMonotone(text, i + 1, next);
      }
    }
  }

  /** What `parse_bibtex_entries` returns: each entry has `_key`, every
      other name is a non-empty lower-case name with a collapsed value, and
      there is at most one entry per `@`. */
  lemma ParseEntriesFacts(text: string)
    ensures var es := ParseEntries(text);
      && |es| <= AtSigns(text, 0)
      && (forall e | e in es :: "_key" in e)
      && (forall e, n | e in es && n in e && n != "_key" :: ParsedField(e, n))
  {
    EntriesBound(text, 0);
    EntriesFacts(text, 0);
  }

  /** `FindFrom` stops at the first `c`. */
  lemma {:induction false} FindFromAt(s: string, c: char, k: nat, i: nat)
    requires k <= i < |s| && s[i] == c
    requires forall m | k <= m < i :: s[m] != c
    ensures FindFrom(s, c, k) == i
    decreases i - k
  {
    if k < i {
      FindFromAt(s, c, k + 1, i);
    }
  }

  /** `SkipOut` stops at the first character of `cs`. */
  lemma {:induction false} SkipOutAt(s: string, k: nat, cs: set<char>, i: nat)
    requires k <= i < |s| && s[i] in cs
    requires forall m | k <= m < i :: s[m] !in cs
    ensures SkipOut(s, k, cs) == i
    decreases i - k
  {
    if k < i {
      SkipOutAt(s, k + 1, cs, i);
    }
  }

  /** The brace scan passes over text without braces unchanged. */
  lemma {:induction false} CloseFromSkips(s: string, j: nat, i: nat, depth: int)
    requires j <= i <= |s|
    requires forall m | j <= m < i :: s[m] != '{' && s[m] != '}'
    ensures CloseFrom(s, j, depth) == CloseFrom(s, i, depth)
    decreases i - j
  {
    if j < i {
      CloseFromSkips(s, j + 1, i, depth);
    }
  }

  /** Text without braces. */
  predicate NoBraces(s: string) { forall m | 0 <= m < |s| :: s[m] != '{' && s[m] != '}' }

  /** The field list `name={value}`: one field, whose name is the
      lower-cased stripped name and whose value is the stored value. */
  lemma OneBracedField(name: string, v: string, entry: Entry)
    requires name != [] && name[0] !in FieldGap() && Strip(name) != []
    requires '=' !in name && '\n' !in name && NoBraces(v)
    ensures FieldsFrom(name + "={" + v + "}", 0, entry) == entry[Lower(Strip(name)) := StoredValue(v)]
  {
    var f := name + "={" + v + "}";
    var b := |name|;
    assert f[..b] == name && f[b] == '=' && f[b + 1] == '{';
    assert f[b + 2..b + 2 + |v|] == v && f[b + 2 + |v|] == '}' && |f| == b + 3 + |v|;
    assert SkipIn(f, 0, FieldGap()) == 0;
    SkipOutAt(f, 0, NameEnd(), b);
    assert FieldName(f, 0, b) == Lower(Strip(name));
    SkipOutAt(f, b, {'='}, b);
    assert SkipIn(f, b + 1, ValueGap()) == b + 1;
    CloseFromSkips(f, b + 2, b + 2 + |v|, 1);
    assert CloseFrom(f, b + 1, 0) == b + 2 + |v|;
    assert ValueAt(f, b + 1) == (v, |f|);
    assert FieldStep(f, 0) == Field(Lower(Strip(name)), v, |f|);
  }

  /** A single entry `@type{key,name={value}}` parses to exactly one entry:
      `_key` is the stripped key and the one field holds the stored value. */
  lemma ParseOneEntry(typ: string, key: string, name: string, v: string)
    requires '{' !in typ && ',' !in key && NoBraces(key)
    requires name != [] && name[0] !in FieldGap() && Strip(name) != []
    requires '=' !in name && '\n' !in name && NoBraces(name) && NoBraces(v)
    ensures ParseEntries("@" + typ + "{" + key + "," + name + "={" + v + "}}")
      == [map["_key" := Strip(key)][Lower(Strip(name)) := StoredValue(v)]]
  {
    var text := "@" + typ + "{" + key + "," + name + "={" + v + "}}";
    var f := name + "={" + v + "}";
    var body := key + "," + f;
    assert body == key + "," + name + "={" + v + "}";
    OneEntryStep(typ, key, name, v);
    assert body[..|key|] == key;
    assert body[|key| + 1..] == f by {
      assert body == (key + ",") + f;
    }
    OneBracedField(name, v, map["_key" := Strip(key)]);
    assert EntriesFrom(text, |text|) == [];
  }

  /** The outer loop's turn at the `@` of such an entry emits the entry of
      its body and goes on at the end of the text. */
  lemma OneEntryStep(typ: string, key: string, name: string, v: string)
    requires '{' !in typ && ',' !in key && NoBraces(key)
    requires NoBraces(name) && NoBraces(v)
    ensures var text := "@" + typ + "{" + key + "," + name + "={" + v + "}}";
      EntryStep(text, 0) == Emit(EntryOf(key + "," + name + "={" + v + "}", |key|), |text|)
  {
    var text := "@" + typ + "{" + key + "," + name + "={" + v + "}}";
    var body := key + "," + name + "={" + v + "}";
    var brace := 1 + |typ|;
    assert text == ("@" + typ + "{") + body + "}";
    assert text[brace + 1..|text| - 1] == body;
    assert forall m | 0 <= m < brace :: text[m] != '{';
    assert forall m | 0 <= m < |key| :: body[m] != ',';
    OneEntryClose(typ, key, name, v);
    EntryStepEmits(text, brace, |key|);
  }

  /** The turn at an `@` at the start of `text`, whose first `{` is at
      `brace` and closes at the last character, and whose body has its
      first comma at `comma`, emits the entry of that body. */
  lemma EntryStepEmits(text: string, brace: nat, comma: nat)
    requires 0 < brace < |text| - 1 && text[0] == '@' && text[brace] == '{'
    requires forall m | 0 <= m < brace :: text[m] != '{'
    requires CloseFrom(text, brace, 0) == |text| - 1
    requires var body := text[brace + 1..|text| - 1];
      comma < |body| && body[comma] == ',' && forall m | 0 <= m < comma :: body[m] != ','
    ensures EntryStep(text, 0) == Emit(EntryOf(text[brace + 1..|text| - 1], comma), |text|)
  {
    FindFromAt(text, '{', 0, brace);
    FindFromAt(text[brace + 1..|text| - 1], ',', 0, comma);
  }

  /** The brace that closes such an entry is its last character. */
  lemma OneEntryClose(typ: string, key: string, name: string, v: string)
    requires NoBraces(key) && NoBraces(name) && NoBraces(v)
    ensures var text := "@" + typ + "{" + key + "," + name + "={" + v + "}}";
      CloseFrom(text, 1 + |typ|, 0) == |text| - 1
  {
    var text := "@" + typ + "{" + key + "," + name + "={" + v + "}}";
    var mid := key + "," + name + "=";
    var a := 1 + |typ|;
    var p := a + 1 + |mid|;
    assert text == ("@" + typ) + "{" + mid + "{" + v + "}}";
    assert forall m | a < m < p :: text[m] == mid[m - a - 1];
    assert forall m | p < m < p + 1 + |v| :: text[m] == v[m - p - 1];
    NestedClose(text, a, p, p + 1 + |v|);
  }

  /** `{` at `a`, braceless text, `{` at `p`, braceless text, then `}` at
      `q` and at `q + 1`: the brace at `a` closes at `q + 1`. */
  lemma NestedClose(s: string, a: nat, p: nat, q: nat)
    requires a < p < q && q + 1 < |s|
    requires s[a] == '{' && s[p] == '{' && s[q] == '}' && s[q + 1] == '}'
    requires forall m | a < m < p :: s[m] != '{' && s[m] != '}'
    requires forall m | p < m < q :: s[m] != '{' && s[m] != '}'
    ensures CloseFrom(s, a, 0) == q + 1
  {
    CloseFromSkips(s, a + 1, p, 1);
    CloseFromSkips(s, p + 1, q, 2);
  }

  /** The field list `name="value"`: one field, whose name is the
      lower-cased stripped name and whose value is the stored value. */
  lemma OneQuotedField(name: string, v: string, entry: Entry)
    requires name != [] && name[0] !in FieldGap() && Strip(name) != []
    requires '=' !in name && '\n' !in name && '"' !in v
    ensures FieldsFrom(name + "=\"" + v + "\"", 0, entry) == entry[Lower(Strip(name)) := StoredValue(v)]
  {
    var f := name + "=\"" + v + "\"";
    var b := |name|;
    assert f[..b] == name && f[b] == '=' && f[b + 1] == '"';
    assert f[b + 2..b + 2 + |v|] == v && f[b + 2 + |v|] == '"' && |f| == b + 3 + |v|;
    assert SkipIn(f, 0, FieldGap()) == 0;
    SkipOutAt(f, 0, NameEnd(), b);
    assert FieldName(f, 0, b) == Lower(Strip(name));
    SkipOutAt(f, b, {'='}, b);
    assert SkipIn(f, b + 1, ValueGap()) == b + 1;
    SkipOutAt(f, b + 2, {'"'}, b + 2 + |v|);
    assert ValueAt(f, b + 1) == (v, |f|);
    assert FieldStep(f, 0) == Field(Lower(Strip(name)), v, |f|);
  }

  /** The field list `name=value` with a bare value: one field, whose name
      is the lower-cased stripped name and whose value is the stored value.
      A bare value runs to the end of the list when it has no comma and no
      newline. */
  lemma OneBareField(name: string, v: string, entry: Entry)
    requires name != [] && name[0] !in FieldGap() && Strip(name) != []
    requires '=' !in name && '\n' !in name
    requires v != [] && v[0] !in ValueGap() && v[0] != '{' && v[0] != '"' && ',' !in v && '\n' !in v
    ensures FieldsFrom(name + "=" + v, 0, entry) == entry[Lower(Strip(name)) := StoredValue(v)]
  {
    var f := name + "=" + v;
    var b := |name|;
    assert f[..b] == name && f[b] == '=' && f[b + 1..] == v && |f| == b + 1 + |v|;
    assert SkipIn(f, 0, FieldGap()) == 0;
    SkipOutAt(f, 0, NameEnd(), b);
    assert FieldName(f, 0, b) == Lower(Strip(name));
    SkipOutAt(f, b, {'='}, b);
    assert f[b + 1] == v[0];
    assert SkipIn(f, b + 1, ValueGap()) == b + 1;
    var e := SkipOut(f, b + 1, BareEnd());
    assert e == |f|;
    assert f[b + 1..e] == v;
    assert ValueAt(f, b + 1) == (v, |f|);
    assert FieldStep(f, 0) == Field(Lower(Strip(name)), v, |f|);
  }

  /** An entry `@type{key,fields}` whose fields hold no brace parses to
      exactly one entry: `_key` is the stripped key, followed by what the
      field loop reads from `fields`. */
  lemma ParseBracelessEntry(typ: string, key: string, f: string)
    requires '{' !in typ && ',' !in key && NoBraces(key) && NoBraces(f)
    ensures ParseEntries("@" + typ + "{" + key + "," + f + "}") == [FieldsFrom(f, 0, map["_key" := Strip(key)])]
  {
    var text := "@" + typ + "{" + key + "," + f + "}";
    var body := key + "," + f;
    BracelessEntryStep(typ, key, f);
    assert body[..|key|] == key;
    assert body[|key| + 1..] == f by {
      assert body == (key + ",") + f;
    }
    assert EntriesFrom(text, |text|) == [];
  }

  /** The outer loop's turn at the `@` of such an entry emits the entry of
      its body and goes on at the end of the text. */
  lemma BracelessEntryStep(typ: string, key: string, f: string)
    requires '{' !in typ && ',' !in key && NoBraces(key) && NoBraces(f)
    ensures var text := "@" + typ + "{" + key + "," + f + "}";
      EntryStep(text, 0) == Emit(EntryOf(key + "," + f, |key|), |text|)
  {
    var text := "@" + typ + "{" + key + "," + f + "}";
    var body := key + "," + f;
    var brace := 1 + |typ|;
    assert text == ("@" + typ + "{") + body + "}";
    assert text[brace + 1..|text| - 1] == body;
    assert forall m | 0 <= m < brace :: text[m] != '{';
    BracelessClose(typ, body);
    assert forall m | 0 <= m < |key| :: body[m] != ',';
    EntryStepEmits(text, brace, |key|);
  }

  /** The brace of `@type{body}` with a braceless body closes at the last
      character. */
  lemma BracelessClose(typ: string, body: string)
    requires NoBraces(body)
    ensures var text := "@" + typ + "{" + body + "}";
      CloseFrom(text, 1 + |typ|, 0) == |text| - 1
  {
    var text := "@" + typ + "{" + body + "}";
    var a := 1 + |typ|;
    assert forall m | a < m < |text| - 1 :: text[m] == body[m - a - 1];
    CloseFromSkips(text, a + 1, |text| - 1, 1);
  }

  /** A single entry `@type{key,name="value"}` parses to exactly one entry:
      `_key` is the stripped key and the one field holds the stored value. */
  lemma ParseOneQuotedEntry(typ: string, key: string, name: string, v: string)
    requires '{' !in typ && ',' !in key && NoBraces(key)
    requires name != [] && name[0] !in FieldGap() && Strip(name) != []
    requires '=' !in name && '\n' !in name && NoBraces(name) && NoBraces(v) && '"' !in v
    ensures ParseEntries("@" + typ + "{" + key + "," + (name + "=\"" + v + "\"") + "}")
      == [map["_key" := Strip(key)][Lower(Strip(name)) := StoredValue(v)]]
  {
    var f := name + "=\"" + v + "\"";
    assert NoBraces(f) by {
      forall m | 0 <= m < |f| ensures f[m] != '{' && f[m] != '}' {
        if m < |name| { assert f[m] == name[m]; }
        else if |name| + 1 < m < |name| + 2 + |v| { assert f[m] == v[m - |name| - 2]; }
      }
    }
    ParseBracelessEntry(typ, key, f);
    OneQuotedField(name, v, map["_key" := Strip(key)]);
  }

  /** A single entry `@type{key,name=value}` with a bare value parses to
      exactly one entry: `_key` is the stripped key and the one field holds
      the stored value. */
  lemma ParseOneBareEntry(typ: string, key: string, name: string, v: string)
    requires '{' !in typ && ',' !in key && NoBraces(key)
    requires name != [] && name[0] !in FieldGap() && Strip(name) != []
    requires '=' !in name && '\n' !in name && NoBraces(name) && NoBraces(v)
    requires v != [] && v[0] !in ValueGap() && v[0] != '"' && ',' !in v && '\n' !in v
    ensures ParseEntries("@" + typ + "{" + key + "," + (name + "=" + v) + "}")
      == [map["_key" := Strip(key)][Lower(Strip(name)) := StoredValue(v)]]
  {
    var f := name + "=" + v;
    assert NoBraces(f) by {
      forall m | 0 <= m < |f| ensures f[m] != '{' && f[m] != '}' {
        if m < |name| { assert f[m] == name[m]; }
        else if m > |name| { assert f[m] == v[m - |name| - 1]; }
      }
    }
    ParseBracelessEntry(typ, key, f);
    OneBareField(name, v, map["_key" := Strip(key)]);
  }

  /** An `@` with no `{` after it, or whose braces never close, ends the
      parse: nothing from it on is returned. */
  lemma UnclosedEntryStops(text: string, i: nat)
    requires i < |text| && text[i] == '@'
    requires var brace := FindFrom(text, '{', i); brace == |text| || CloseFrom(text, brace, 0) == |text|
    ensures EntriesFrom(text, i) == []
  {
    assert EntryStep(text, i).Stop?;
  }

  /** Inside an open brace, text without `}` never closes it. */
  lemma {:induction false} NoCloseWithoutBrace(s: string, j: nat, depth: int)
    requires j <= |s| && depth >= 1
    requires forall m | j <= m < |s| :: s[m] != '}'
    ensures CloseFrom(s, j, depth) == |s|
    decreases |s| - j
  {
    if j < |s| {
      NoCloseWithoutBrace(s, j + 1, if s[j] == '{' then depth + 1 else depth);
    }
  }

  /** An entry opened by `@type{` after `pre` and never closed drops
      everything after it, even `@` entries inside the rest that look
      complete but for their closing brace. */
  lemma UnclosedEntryDropsRest(pre: string, typ: string, rest: string)
    requires '{' !in typ && '}' !in rest
    ensures var text := pre + "@" + typ + "{" + rest;
      EntriesFrom(text, |pre|) == []
  {
    var text := pre + "@" + typ + "{" + rest;
    UnclosedBrace(pre, typ, rest);
    UnclosedEntryStops(text, |pre|);
  }

  /** In `pre@type{rest`, the first `{` after the `@` ends `type` and the
      scan for its closing brace runs off the end. */
  lemma UnclosedBrace(pre: string, typ: string, rest: string)
    requires '{' !in typ && '}' !in rest
    ensures var text := pre + "@" + typ + "{" + rest;
      var brace := |pre| + 1 + |typ|;
      text[|pre|] == '@' && FindFrom(text, '{', |pre|) == brace && CloseFrom(text, brace, 0) == |text|
  {
    var text := pre + "@" + typ + "{" + rest;
    var brace := |pre| + 1 + |typ|;
    assert text == (pre + "@") + typ + "{" + rest;
    assert forall m | |pre| < m < brace :: text[m] == typ[m - |pre| - 1];
    assert forall m | brace < m < |text| :: text[m] == rest[m - brace - 1];
    FindFromAt(text, '{', |pre|, brace);
    NoCloseWithoutBrace(text, brace + 1, 1);
  }

  /** A body without a comma is skipped: the parse goes on after its
      closing brace as if the entry were not there. */
  lemma CommaFreeEntrySkipped(text: string, i: nat, typ: string, b: string)
    requires '{' !in typ && NoBraces(b) && ',' !in b
    requires i + |typ| + |b| + 3 <= |text| && text[i..i + |typ| + |b| + 3] == "@" + typ + "{" + b + "}"
    ensures EntriesFrom(text, i) == EntriesFrom(text, i + |typ| + |b| + 3)
  {
    var brace := i + 1 + |typ|;
    var j := brace + 1 + |b|;
    EntryShapeAt(text, i, typ, b);
    FindFromAt(text, '{', i, brace);
    CloseFromSkips(text, brace + 1, j, 1);
    assert CloseFrom(text, brace, 0) == j;
    assert FindFrom(b, ',', 0) == |b|;
    assert EntryStep(text, i) == Skip(j + 1);
  }

  /** The characters of an entry `@type{b}` at `i` whose type holds no `{`
      and whose body holds no brace. */
  lemma EntryShapeAt(text: string, i: nat, typ: string, b: string)
    requires '{' !in typ && NoBraces(b)
    requires i + |typ| + |b| + 3 <= |text| && text[i..i + |typ| + |b| + 3] == "@" + typ + "{" + b + "}"
    ensures var brace := i + 1 + |typ|; var j := brace + 1 + |b|;
      && text[i] == '@' && text[brace] == '{' && text[j] == '}'
      && (forall m | i <= m < brace :: text[m] != '{')
      && (forall m | brace + 1 <= m < j :: text[m] != '{' && text[m] != '}')
      && text[brace + 1..j] == b
  {
    var s := "@" + typ + "{" + b + "}";
    var brace := i + 1 + |typ|;
    var j := brace + 1 + |b|;
    assert forall k | 0 <= k < |s| :: text[i + k] == s[k] by {
      forall k | 0 <= k < |s| ensures text[i + k] == s[k] {
        assert text[i..i + |s|][k] == text[i + k];
      }
    }
    assert forall k | 0 < k < 1 + |typ| :: s[k] == typ[k - 1];
    assert forall k | 0 <= k < |b| :: s[2 + |typ| + k] == b[k];
    assert s[0] == '@' && s[1 + |typ|] == '{' && s[|s| - 1] == '}';
    assert forall m | brace + 1 <= m < j :: text[m] == b[m - brace - 1];
    assert text[brace + 1..j] == b;
  }

  // ---------------------------------------------------------------------------
  // The loops of parse_bibtex_entries
  // ---------------------------------------------------------------------------

  /** The depth loop: from the `{` at `start`, the index of its matching
      `}`, or `|s|`. */
  method MatchBrace(s: string, start: nat) returns (j: nat)
    requires start <= |s|
    ensures j == CloseFrom(s, start, 0)
  {
    var depth := 0;
    j := start;
    while j < |s|
      invariant start <= j <= |s|
      invariant CloseFrom(s, start, 0) == CloseFrom(s, j, depth)
      decreases |s| - j
    {
      if s[j] == '{' {
        depth := depth + 1;
      } else if s[j] == '}' {
        depth := depth - 1;
        if depth == 0 {
          return;
        }
      }
      j := j + 1;
    }
  }

  /** `while k < len(s) and s[k] in cs: k += 1`. */
  method SkipWhileIn(s: string, k0: nat, cs: set<char>) returns (k: nat)
    requires k0 <= |s|
    ensures k == SkipIn(s, k0, cs)
  {
    k := k0;
    while k < |s| && s[k] in cs
      invariant k0 <= k <= |s|
      invariant SkipIn(s, k0, cs) == SkipIn(s, k, cs)
    {
      k := k + 1;
    }
  }

  /** `while k < len(s) and s[k] not in cs: k += 1`. */
  method SkipUntil(s: string, k0: nat, cs: set<char>) returns (k: nat)
    requires k0 <= |s|
    ensures k == SkipOut(s, k0, cs)
  {
    k := k0;
    while k < |s| && s[k] !in cs
      invariant k0 <= k <= |s|
      invariant SkipOut(s, k0, cs) == SkipOut(s, k, cs)
    {
      k := k + 1;
    }
  }

  /** The value branch of the field loop: the value at `d` and where the
      scan goes on. */
  method ReadValue(f: string, d: nat) returns (value: string, next: nat)
    requires d < |f|
    ensures (value, next) == ValueAt(f, d)
  {
    if f[d] == '{' {
      var e := MatchBrace(f, d);
      value, next := f[d + 1..e], e + 1;
    } else if f[d] == '"' {
      var e := SkipUntil(f, d + 1, {'"'});
      value, next := f[d + 1..e], e + 1;
    } else {
      var e := SkipUntil(f, d, BareEnd());
      value, next := f[d..e], e;
    }
  }

  /** One turn of the field loop, with the source's cursor moves. */
  method ScanField(f: string, k: nat) returns (st: FieldScan)
    requires k < |f|
    ensures st == FieldStep(f, k)
  {
    var a := SkipWhileIn(f, k, FieldGap());
    if a >= |f| {
      return Done;
    }
    var b := SkipUntil(f, a, NameEnd());
    var name := Lower(Strip(f[a..b]));
    if name == [] {
      return Done;
    }
    var c := SkipUntil(f, b, {'='});
    if c >= |f| {
      return Done;
    }
    var d := SkipWhileIn(f, c + 1, ValueGap());
    if d >= |f| {
      return Done;
    }
    var value, next := ReadValue(f, d);
    return Field(name, value, next);
  }

  /** The field loop over `fields`, starting from `entry0`. */
  method ParseFields(f: string, entry0: Entry) returns (entry: Entry)
    ensures entry == FieldsFrom(f, 0, entry0)
  {
    entry := entry0;
    var k := 0;
    while k < |f|
      invariant FieldsFrom(f, 0, entry0) == FieldsFrom(f, k, entry)
      decreases if k <= |f| then |f| - k else 0
    {
      var st := ScanField(f, k);
      if st.Done? {
        break;
      }
      entry := entry[st.name := SquashSpaces(Strip(st.raw))];
      k := st.next;
    }
  }

  /** One turn of the outer loop of `parse_bibtex_entries` at the `@` at `i`. */
  method ScanEntry(text: string, i: nat) returns (st: EntryScan)
    requires i < |text| && text[i] == '@'
    ensures st == EntryStep(text, i)
  {
    var brace := FindFrom(text, '{', i);
    if brace == |text| {
      return Stop;
    }
    var j := MatchBrace(text, brace);
    if j == |text| {
      return Stop;
    }
    var body := text[brace + 1..j];
    var comma := FindFrom(body, ',', 0);
    if comma == |body| {
      return Skip(j + 1);
    }
    var entry := ParseFields(body[comma + 1..], map["_key" := Strip(body[..comma])]);
    return Emit(entry, j + 1);
  }

  /** `parse_bibtex_entries(text)`, with the cursors of the source. */
  method ParseBibtexEntries(text: string) returns (entries: seq<Entry>)
    ensures entries == ParseEntries(text)
  {
    entries := [];
    var i := 0;
    while i < |text|
      invariant i <= |text|
      invariant ParseEntries(text) == entries + EntriesFrom(text, i)
    {
      if text[i] != '@' {
        i := i + 1;
        continue;
      }
      var st := ScanEntry(text, i);
      match st
      case Stop =>
        break;
      case Skip(next) =>
        i := next;
      case Emit(entry, next) =>
        entries := entries + [entry];
        i := next;
    }
  }
}
