/**
 * The spreadsheet-to-glossary converter. A sheet is a list of column
 * names and a list of rows of cells; a cell is NaN (empty) or holds the
 * text `str(value)` of its value. Reading the workbook, printing and
 * writing the JSON file are left out; the converter maps the sheet to the
 * list stored under "translations", or to the message of the exception it
 * raises.
 */
module ExcelToJson {
  import opened Wrappers
  import opened PyStr
  import opened Glossary

  /** A spreadsheet cell as pandas reads it. */
  datatype Cell = NaN | Value(text: string)

  datatype Sheet = Sheet(columns: seq<string>, rows: seq<seq<Cell>>)

  /**
   * The result of looking a column name up in a row: not a column, the cell
   * of the one column with that name, or several cells when two cleaned
   * column names coincide (pandas then hands back a Series).
   */
  datatype Lookup = Absent | Present(cell: Cell) | Several

  /** The languages visited for every row, in this order. */
  const Languages: seq<string> := ["en", "es", "fr", "de", "it", "ja", "ko", "zh"]

  /** The message of the exception raised when the sheet has rows but no "term" column. */
  const MissingTermMessage: string := "Error converting Excel to JSON: 'term'"

  /**
   * The message of the exception raised when a Series of several cells is
   * tested for truth (`not pd.isna(...)` on a column name two columns share).
   */
  const AmbiguousMessage: string :=
    "Error converting Excel to JSON: The truth value of a Series is ambiguous. Use a.empty, a.bool(), a.item(), a.any() or a.all()."

  // ---------------------------------------------------------------------
  // Column names

  /** `.str.strip().str.lower().str.replace(' ', '_')` on one column name. */
  function CleanColumn(c: string): (r: string)
    ensures CleanShaped(r)
  {
    CleanColumnShape(c);
    ReplaceChar(Lower(Strip(c)), ' ', '_')
  }

  /** Lower case, no space, and no whitespace at either end. */
  predicate CleanShaped(r: string) {
    IsLowercase(r) && ' ' !in r && (r == [] || (!IsSpace(r[0]) && !IsSpace(r[|r| - 1])))
  }

  lemma CleanColumnShape(c: string)
    ensures CleanShaped(ReplaceChar(Lower(Strip(c)), ' ', '_'))
  {
    var s := Strip(c);
    LowerEdges(s);
    ReplaceSpaceShape(Lower(s));
  }

  /** Lower-casing a text without outer whitespace keeps it without outer whitespace. */
  lemma LowerEdges(s: string)
    requires s == [] || (!IsSpace(s[0]) && !IsSpace(s[|s| - 1]))
    ensures IsLowercase(Lower(s))
    ensures Lower(s) == [] || (!IsSpace(Lower(s)[0]) && !IsSpace(Lower(s)[|s| - 1]))
  {
    LowerFacts(s);
  }

  /** Replacing spaces by underscores in a lower-case text without outer whitespace keeps both properties. */
  lemma ReplaceSpaceShape(t: string)
    requires IsLowercase(t)
    requires t == [] || (!IsSpace(t[0]) && !IsSpace(t[|t| - 1]))
    ensures CleanShaped(ReplaceChar(t, ' ', '_'))
  {
    var r := ReplaceChar(t, ' ', '_');
    assert forall i :: 0 <= i < |r| ==> r[i] != ' ';
  }

  function CleanColumns(cols: seq<string>): (r: seq<string>)
    ensures |r| == |cols|
    ensures forall i :: 0 <= i < |cols| ==> r[i] == CleanColumn(cols[i])
  {
    seq(|cols|, i requires 0 <= i < |cols| => CleanColumn(cols[i]))
  }

  /** A cleaned name is already clean: cleaning twice is cleaning once. */
  lemma CleanColumnIdempotent(c: string)
    ensures CleanColumn(CleanColumn(c)) == CleanColumn(c)
  {
    CleanShapedFixed(CleanColumn(c));
  }

  lemma CleanShapedFixed(r: string)
    requires CleanShaped(r)
    ensures ReplaceChar(Lower(Strip(r)), ' ', '_') == r
  {
    StripIdentity(r);
    LowerIdentity(r);
    ReplaceAbsent(r, ' ', '_');
  }

  lemma LowerIdentity(s: string)
    requires IsLowercase(s)
    ensures Lower(s) == s
  {
    LowerFacts(s);
  }

  lemma ReplaceAbsent(s: string, a: char, b: char)
    requires a !in s
    ensures ReplaceChar(s, a, b) == s
  {
  }

  // ---------------------------------------------------------------------
  // ---------------------------------------------------------------------
  // Cells of a row

  /** The position of the first column called `name`, or -1. */
  function ColumnIndex(cols: seq<string>, name: string): (i: int)
    ensures -1 <= i < |cols|
    ensures i >= 0 ==> cols[i] == name && forall j :: 0 <= j < i ==> cols[j] != name
  {
    if cols == [] then -1
    else if cols[0] == name then 0
    else
      var j := ColumnIndex(cols[1..], name);
      assert forall k :: 1 <= k < |cols| ==> cols[k] == cols[1..][k - 1];
      if j < 0 then -1 else j + 1
  }

  lemma {:induction false} ColumnIndexAbsent(cols: seq<string>, name: string)
    ensures ColumnIndex(cols, name) < 0 <==> name !in cols
  {
    if cols != [] && cols[0] != name {
      ColumnIndexAbsent(cols[1..], name);
      assert cols == [cols[0]] + cols[1..];
    }
  }

  /** Two of the columns carry the name `name`. */
  predicate Duplicated(cols: seq<string>, name: string) {
    exists i, j :: 0 <= i < j < |cols| && cols[i] == name && cols[j] == name
  }

  /** A row shorter than the header reads as NaN in the missing places. */
  function CellAt(row: seq<Cell>, i: nat): Cell {
    if i < |row| then row[i] else NaN
  }

  /** `col in row.index`, and then `row[col]`. */
  function LookupColumn(cols: seq<string>, row: seq<Cell>, name: string): Lookup {
    if Duplicated(cols, name) then Several
    else
      var i := ColumnIndex(cols, name);
      if i < 0 then Absent else Present(CellAt(row, i))
  }

  /**
   * A lookup is Absent exactly for a name that is no column, Several exactly
   * for a name two columns share, and otherwise the cell of the one column
   * with that name.
   */
  lemma LookupColumnSpec(cols: seq<string>, row: seq<Cell>, name: string)
    ensures LookupColumn(cols, row, name).Absent? <==> name !in cols
    ensures LookupColumn(cols, row, name).Several? <==> Duplicated(cols, name)
    ensures LookupColumn(cols, row, name).Present? ==>
              exists i :: 0 <= i < |cols| && cols[i] == name
                && LookupColumn(cols, row, name).cell == CellAt(row, i)
                && forall j :: 0 <= j < |cols| && j != i ==> cols[j] != name
  {
    ColumnIndexAbsent(cols, name);
    if LookupColumn(cols, row, name).Present? {
      var i := ColumnIndex(cols, name);
      forall j | 0 <= j < |cols| && j != i
        ensures cols[j] != name
      {
      }
    }
  }

  /** Whether the lookup found one column whose cell is not NaN. */
  predicate HasValue(l: Lookup) {
    l.Present? && l.cell.Value?
  }

  /** Whether a candidate loop stops at this lookup: it breaks on a value, and testing a Series raises. */
  predicate Stops(l: Lookup) {
    HasValue(l) || l.Several?
  }

  /** What a candidate loop that stops at `l` yields: the stripped text, or the exception of a Series. */
  function StopValue(l: Lookup): Result<Option<string>, string>
    requires Stops(l)
  {
    if l.Several? then Err(AmbiguousMessage) else Ok(Some(Strip(l.cell.text)))
  }

  // ---------------------------------------------------------------------
  // Per-language lookup

  /** The candidate column names for the translation of `lang`, in the order they are tried. */
  function TranslationColumns(lang: string): seq<string> {
    ["translation_" + lang, lang + "_translation", lang, Upper(lang), "translation_in_" + lang, lang + "_text"]
  }

  /** The candidate column names for the description of `lang`, in the order they are tried. */
  function DescriptionColumns(lang: string): seq<string> {
    ["description_" + lang, lang + "_description", lang + "_notes", "notes_" + lang, lang + "_comment", "comment_" + lang]
  }

  /**
   * The stripped text of the first candidate column that exists and is not
   * NaN; None when there is none. Later candidates are not looked at once
   * one is found, even when its text strips to "". A duplicated candidate
   * reached before that raises.
   */
  function FirstValue(cols: seq<string>, row: seq<Cell>, cands: seq<string>): (r: Result<Option<string>, string>)
    ensures r.Err? ==> r.error == AmbiguousMessage
  {
    if cands == [] then Ok(None)
    else
      var l := LookupColumn(cols, row, cands[0]);
      if Stops(l) then StopValue(l) else FirstValue(cols, row, cands[1..])
  }

  /** The candidate loop stops first at position `k`. */
  predicate FirstStop(cols: seq<string>, row: seq<Cell>, cands: seq<string>, k: int) {
    0 <= k < |cands| && Stops(LookupColumn(cols, row, cands[k]))
    && forall j :: 0 <= j < k ==> !Stops(LookupColumn(cols, row, cands[j]))
  }

  /**
   * Ok(None) exactly when no candidate has a value or is duplicated;
   * otherwise the first candidate that has one or is duplicated decides:
   * its stripped text, or the exception of a Series.
   */
  lemma FirstValueSpec(cols: seq<string>, row: seq<Cell>, cands: seq<string>)
    ensures FirstValue(cols, row, cands) == Ok(None) <==>
              forall k :: 0 <= k < |cands| ==> !Stops(LookupColumn(cols, row, cands[k]))
    ensures FirstValue(cols, row, cands) != Ok(None) ==>
              exists k :: FirstStop(cols, row, cands, k)
                && FirstValue(cols, row, cands) == StopValue(LookupColumn(cols, row, cands[k]))
  {
    FirstValueNone(cols, row, cands);
    if FirstValue(cols, row, cands) != Ok(None) {
      var k := FirstValueStop(cols, row, cands);
    }
  }

  lemma {:induction false} FirstValueNone(cols: seq<string>, row: seq<Cell>, cands: seq<string>)
    ensures FirstValue(cols, row, cands) == Ok(None) <==>
              forall k :: 0 <= k < |cands| ==> !Stops(LookupColumn(cols, row, cands[k]))
  {
    if cands != [] && !Stops(LookupColumn(cols, row, cands[0])) {
      FirstValueNone(cols, row, cands[1..]);
      assert forall k :: 1 <= k < |cands| ==> cands[k] == cands[1..][k - 1];
    }
  }

  lemma {:induction false} FirstValueStop(cols: seq<string>, row: seq<Cell>, cands: seq<string>) returns (k: int)
    requires FirstValue(cols, row, cands) != Ok(None)
    ensures FirstStop(cols, row, cands, k)
    ensures FirstValue(cols, row, cands) == StopValue(LookupColumn(cols, row, cands[k]))
  {
    if Stops(LookupColumn(cols, row, cands[0])) {
      k := 0;
    } else {
      var rest := cands[1..];
      var j := FirstValueStop(cols, row, rest);
      k := j + 1;
      assert rest[j] == cands[k];
      forall i | 0 <= i < k
        ensures !Stops(LookupColumn(cols, row, cands[i]))
      {
        if i > 0 {
          assert cands[i] == rest[i - 1];
        }
      }
    }
  }

  /** The candidate loop with `break`. */
  method FindValue(cols: seq<string>, row: seq<Cell>, cands: seq<string>) returns (r: Result<Option<string>, string>)
    ensures r == FirstValue(cols, row, cands)
  {
    r := Ok(None);
    var i := 0;
    while i < |cands|
      invariant 0 <= i <= |cands|
      invariant FirstValue(cols, row, cands) == FirstValue(cols, row, cands[i..])
    {
      assert cands[i..][1..] == cands[i + 1..];
      var l := LookupColumn(cols, row, cands[i]);
      if l.Several? {
        return Err(AmbiguousMessage);
      }
      if HasValue(l) {
        return Ok(Some(Strip(l.cell.text)));
      }
      i := i + 1;
    }
    assert cands[i..] == [];
  }

  /**
   * The translation entry for `lang`: present only when the translation text
   * is non-empty, and carrying a description only when that is non-empty.
   * Both candidate loops run, so either can raise.
   */
  function LanguageTranslation(cols: seq<string>, row: seq<Cell>, lang: string): (r: Result<Option<GlossaryTranslation>, string>)
    ensures r.Ok? && r.value.Some? ==> r.value.value.languageIso == lang
    ensures r.Err? <==> FirstValue(cols, row, TranslationColumns(lang)).Err? || FirstValue(cols, row, DescriptionColumns(lang)).Err?
  {
    match FirstValue(cols, row, TranslationColumns(lang))
    case Err(e) => Err(e)
    case Ok(t) =>
      match FirstValue(cols, row, DescriptionColumns(lang))
      case Err(e) => Err(e)
      case Ok(d) =>
        if t.Some? && t.value != [] then
          Ok(Some(GlossaryTranslation(lang, t.value, if d.Some? && d.value != [] then Text(d.value) else Missing)))
        else Ok(None)
  }

  /** The translations found for the languages `langs`, in that order, or the first exception. */
  function RowTranslations(cols: seq<string>, row: seq<Cell>, langs: seq<string>): (r: Result<seq<GlossaryTranslation>, string>)
    ensures r.Err? ==> r.error == AmbiguousMessage
  {
    if langs == [] then Ok([])
    else
      match RowTranslations(cols, row, langs[..|langs| - 1])
      case Err(e) => Err(e)
      case Ok(prev) =>
        match LanguageTranslation(cols, row, langs[|langs| - 1])
        case Err(e) => Err(e)
        case Ok(Some(t)) => Ok(prev + [t])
        case Ok(None) => Ok(prev)
  }

  /** An exception for the first `n` languages is the exception of the whole loop. */
  lemma {:induction false} RowTranslationsErrSticks(cols: seq<string>, row: seq<Cell>, langs: seq<string>, n: nat)
    requires n <= |langs| && RowTranslations(cols, row, langs[..n]).Err?
    ensures RowTranslations(cols, row, langs) == RowTranslations(cols, row, langs[..n])
  {
    if n < |langs| {
      var init := langs[..|langs| - 1];
      assert init[..n] == langs[..n];
      RowTranslationsErrSticks(cols, row, init, n);
    } else {
      assert langs[..n] == langs;
    }
  }

  /** One pass of the language loop: both candidate loops, then the translation entry if any. */
  method BuildTranslation(cols: seq<string>, row: seq<Cell>, lang: string) returns (r: Result<Option<GlossaryTranslation>, string>)
    ensures r == LanguageTranslation(cols, row, lang)
  {
    var tv := FindValue(cols, row, TranslationColumns(lang));
    if tv.Err? {
      return Err(tv.error);
    }
    var dv := FindValue(cols, row, DescriptionColumns(lang));
    if dv.Err? {
      return Err(dv.error);
    }
    r := Ok(None);
    if tv.value.Some? && tv.value.value != [] {
      var entry := GlossaryTranslation(lang, tv.value.value, Missing);
      if dv.value.Some? && dv.value.value != [] {
        entry := entry.(description := Text(dv.value.value));
      }
      r := Ok(Some(entry));
    }
  }

  /** One more language is one more pass of the loop. */
  lemma RowTranslationsSnoc(cols: seq<string>, row: seq<Cell>, langs: seq<string>, i: nat, ts: seq<GlossaryTranslation>)
    requires i < |langs| && RowTranslations(cols, row, langs[..i]) == Ok(ts)
    ensures RowTranslations(cols, row, langs[..i + 1])
            == match LanguageTranslation(cols, row, langs[i])
               case Err(e) => Err(e)
               case Ok(Some(t)) => Ok(ts + [t])
               case Ok(None) => Ok(ts)
  {
    assert langs[..i + 1][..i] == langs[..i];
  }

  /** The loop over the languages, appending to `entry["translations"]`. */
  method BuildTranslations(cols: seq<string>, row: seq<Cell>) returns (r: Result<seq<GlossaryTranslation>, string>)
    ensures r == RowTranslations(cols, row, Languages)
  {
    var ts: seq<GlossaryTranslation> := [];
    var i := 0;
    while i < |Languages|
      invariant 0 <= i <= |Languages|
      invariant RowTranslations(cols, row, Languages[..i]) == Ok(ts)
    {
      var lt := BuildTranslation(cols, row, Languages[i]);
      RowTranslationsSnoc(cols, row, Languages, i, ts);
      if lt.Err? {
        RowTranslationsErrSticks(cols, row, Languages, i + 1);
        return Err(lt.error);
      }
      if lt.value.Some? {
        ts := ts + [lt.value.value];
      }
      i := i + 1;
    }
    assert Languages[..i] == Languages;
    r := Ok(ts);
  }

  // ---------------------------------------------------------------------
  // Rows

  /** `str(row.get(name, '')).strip()`, or None for NaN: a missing column gives "". */
  function OptionalText(l: Lookup): JsonText
    requires !l.Several?
  {
    if l.Absent? then Text("")
    else if l.cell.NaN? then Null
    else Text(Strip(l.cell.text))
  }

  /**
   * The entry built from a row whose term cell holds `termText`, or the
   * exception raised while building it.
   */
  function RowEntry(cols: seq<string>, row: seq<Cell>, termText: string): (r: Result<GlossaryEntry, string>)
    ensures r.Err? ==> r.error == AmbiguousMessage
  {
    var pos := LookupColumn(cols, row, "part_of_speech");
    var desc := LookupColumn(cols, row, "description");
    if pos.Several? || desc.Several? then Err(AmbiguousMessage)
    else
      match RowTranslations(cols, row, Languages)
      case Err(e) => Err(e)
      case Ok(ts) => Ok(GlossaryEntry(Strip(termText), OptionalText(pos), OptionalText(desc), ts))
  }

  /** `RowEntry` for the cleaned column names `cols`, as a builder for `ConvertWith`. */
  function EntryOf(cols: seq<string>): (seq<Cell>, string) -> Result<GlossaryEntry, string> {
    (row: seq<Cell>, t: string) => RowEntry(cols, row, t)
  }

  /**
   * The entries for `rows`, given the cleaned column names: a row with a
   * NaN term is skipped, a sheet with rows but no "term" column raises, and
   * so does a row whose lookups meet a Series.
   */
  function Convert(cols: seq<string>, rows: seq<seq<Cell>>): Result<seq<GlossaryEntry>, string> {
    ConvertWith(cols, rows, EntryOf(cols))
  }

  /** One pass of the row loop: skip, append the row's entry, or raise. */
  function AddRow(cols: seq<string>, entries: seq<GlossaryEntry>, row: seq<Cell>,
                  build: (seq<Cell>, string) -> Result<GlossaryEntry, string>): Result<seq<GlossaryEntry>, string>
  {
    match LookupColumn(cols, row, "term")
    case Absent => Err(MissingTermMessage)
    case Several => Err(AmbiguousMessage)
    case Present(NaN) => Ok(entries)
    case Present(Value(t)) =>
      match build(row, t)
      case Err(e) => Err(e)
      case Ok(e) => Ok(entries + [e])
  }

  /** The row loop of the conversion, with the entry of a row built by `build`. */
  function ConvertWith(cols: seq<string>, rows: seq<seq<Cell>>, build: (seq<Cell>, string) -> Result<GlossaryEntry, string>)
    : Result<seq<GlossaryEntry>, string>
  {
    if rows == [] then Ok([])
    else
      match ConvertWith(cols, rows[..|rows| - 1], build)
      case Err(e) => Err(e)
      case Ok(entries) => AddRow(cols, entries, rows[|rows| - 1], build)
  }

  /** The entry dict appended for a row whose term is `termText`. */
  method BuildEntry(cols: seq<string>, row: seq<Cell>, termText: string) returns (r: Result<GlossaryEntry, string>)
    ensures r == EntryOf(cols)(row, termText)
  {
    var pos := LookupColumn(cols, row, "part_of_speech");
    if pos.Several? {
      return Err(AmbiguousMessage);
    }
    var desc := LookupColumn(cols, row, "description");
    if desc.Several? {
      return Err(AmbiguousMessage);
    }
    var ts := BuildTranslations(cols, row);
    if ts.Err? {
      return Err(ts.error);
    }
    r := Ok(GlossaryEntry(Strip(termText), OptionalText(pos), OptionalText(desc), ts.value));
  }

  /** `excel_to_json` on a sheet already read into memory. */
  method ExcelToJson(sheet: Sheet) returns (r: Result<seq<GlossaryEntry>, string>)
    ensures r == Convert(CleanColumns(sheet.columns), sheet.rows)
  {
    var cols := CleanColumns(sheet.columns);
    var entries: seq<GlossaryEntry> := [];
    var i := 0;
    while i < |sheet.rows|
      invariant 0 <= i <= |sheet.rows|
      invariant ConvertWith(cols, sheet.rows[..i], EntryOf(cols)) == Ok(entries)
    {
      var row := sheet.rows[i];
      ConvertWithSnoc(cols, sheet.rows, i, EntryOf(cols), entries);
      var term := LookupColumn(cols, row, "term");
      if term.Absent? {
        ConvertWithErrSticks(cols, sheet.rows, i + 1, EntryOf(cols));
        return Err(MissingTermMessage);
      }
      if term.Several? {
        ConvertWithErrSticks(cols, sheet.rows, i + 1, EntryOf(cols));
        return Err(AmbiguousMessage);
      }
      if term.cell.Value? {
        var entry := BuildEntry(cols, row, term.cell.text);
        if entry.Err? {
          ConvertWithErrSticks(cols, sheet.rows, i + 1, EntryOf(cols));
          return Err(entry.error);
        }
        entries := entries + [entry.value];
      }
      i := i + 1;
    }
    assert sheet.rows[..i] == sheet.rows;
    r := Ok(entries);
  }

  /** One more row is one more pass of the loop. */
  lemma ConvertWithSnoc(cols: seq<string>, rows: seq<seq<Cell>>, i: nat, build: (seq<Cell>, string) -> Result<GlossaryEntry, string>, entries: seq<GlossaryEntry>)
    requires i < |rows| && ConvertWith(cols, rows[..i], build) == Ok(entries)
    ensures ConvertWith(cols, rows[..i + 1], build) == AddRow(cols, entries, rows[i], build)
  {
    assert rows[..i + 1][..i] == rows[..i];
  }

  /** An exception in the first `n` rows is the exception of the whole conversion. */
  lemma {:induction false} ConvertWithErrSticks(cols: seq<string>, rows: seq<seq<Cell>>, n: nat, build: (seq<Cell>, string) -> Result<GlossaryEntry, string>)
    requires n <= |rows| && ConvertWith(cols, rows[..n], build).Err?
    ensures ConvertWith(cols, rows, build) == ConvertWith(cols, rows[..n], build)
  {
    if n < |rows| {
      var init := rows[..|rows| - 1];
      assert init[..n] == rows[..n];
      ConvertWithErrSticks(cols, init, n, build);
    } else {
      assert rows[..n] == rows;
    }
  }

  // ---------------------------------------------------------------------
  // Properties

  /** Without a "term" column, any non-empty sheet fails with the KeyError message. */
  lemma {:induction false} ConvertMissingTerm(cols: seq<string>, rows: seq<seq<Cell>>, build: (seq<Cell>, string) -> Result<GlossaryEntry, string>)
    requires "term" !in cols && rows != []
    ensures ConvertWith(cols, rows, build) == Err(MissingTermMessage)
  {
    LookupColumnSpec(cols, rows[|rows| - 1], "term");
    if |rows| > 1 {
      ConvertMissingTerm(cols, rows[..|rows| - 1], build);
    }
  }

  /** Whether the pass over `row` raises. */
  predicate RowFailsWith(cols: seq<string>, row: seq<Cell>, build: (seq<Cell>, string) -> Result<GlossaryEntry, string>) {
    match LookupColumn(cols, row, "term")
    case Absent => true
    case Several => true
    case Present(NaN) => false
    case Present(Value(t)) => build(row, t).Err?
  }

  /** A pass raises or not whatever the entries collected so far. */
  lemma AddRowFails(cols: seq<string>, entries: seq<GlossaryEntry>, row: seq<Cell>, build: (seq<Cell>, string) -> Result<GlossaryEntry, string>)
    ensures AddRow(cols, entries, row, build).Err? <==> RowFailsWith(cols, row, build)
    ensures AddRow(cols, entries, row, build).Err? ==> AddRow(cols, entries, row, build) == AddRow(cols, [], row, build)
  {
  }

  /** The row loop raises exactly when one of the rows does, and then with the exception of such a row. */
  lemma {:induction false} ConvertWithFailsIff(cols: seq<string>, rows: seq<seq<Cell>>, build: (seq<Cell>, string) -> Result<GlossaryEntry, string>)
    ensures ConvertWith(cols, rows, build).Err? <==> exists i :: 0 <= i < |rows| && RowFailsWith(cols, rows[i], build)
    ensures ConvertWith(cols, rows, build).Err? ==>
              exists i :: 0 <= i < |rows| && RowFailsWith(cols, rows[i], build)
                && ConvertWith(cols, rows, build) == AddRow(cols, [], rows[i], build)
  {
    if rows != [] {
      var init, last := rows[..|rows| - 1], rows[|rows| - 1];
      ConvertWithFailsIff(cols, init, build);
      assert forall i :: 0 <= i < |init| ==> rows[i] == init[i];
      match ConvertWith(cols, init, build)
      case Err(e) =>
        var i :| 0 <= i < |init| && RowFailsWith(cols, init[i], build)
                 && ConvertWith(cols, init, build) == AddRow(cols, [], init[i], build);
        assert rows[i] == init[i];
      case Ok(es) =>
        AddRowFails(cols, es, last, build);
        if RowFailsWith(cols, last, build) {
          assert rows[|rows| - 1] == last;
        }
    }
  }

  /** Whether converting stops at `row`. */
  predicate RowFails(cols: seq<string>, row: seq<Cell>) {
    RowFailsWith(cols, row, EntryOf(cols))
  }

  /**
   * The conversion raises exactly when some row raises; the message is the
   * KeyError for "term" when there is no "term" column and the Series
   * message otherwise.
   */
  lemma ConvertFailsIff(cols: seq<string>, rows: seq<seq<Cell>>)
    ensures Convert(cols, rows).Err? <==> exists i :: 0 <= i < |rows| && RowFails(cols, rows[i])
    ensures Convert(cols, rows).Err? ==>
              Convert(cols, rows).error == if "term" in cols then AmbiguousMessage else MissingTermMessage
  {
    ConvertWithFailsIff(cols, rows, EntryOf(cols));
    if Convert(cols, rows).Err? {
      var i :| 0 <= i < |rows| && RowFails(cols, rows[i])
               && Convert(cols, rows) == AddRow(cols, [], rows[i], EntryOf(cols));
      LookupColumnSpec(cols, rows[i], "term");
    }
  }

  /**
   * A row raises exactly when there is no "term" column, when two columns
   * are called "term", or when its term is set and two columns share the
   * part of speech's or the description's name, or a language's lookups
   * raise.
   */
  lemma RowFailsIff(cols: seq<string>, row: seq<Cell>)
    ensures RowFails(cols, row) <==>
              || "term" !in cols
              || Duplicated(cols, "term")
              || (HasValue(LookupColumn(cols, row, "term"))
                  && (|| Duplicated(cols, "part_of_speech")
                      || Duplicated(cols, "description")
                      || exists k :: 0 <= k < |Languages| && LanguageTranslation(cols, row, Languages[k]).Err?))
  {
    LookupColumnSpec(cols, row, "term");
    LookupColumnSpec(cols, row, "part_of_speech");
    LookupColumnSpec(cols, row, "description");
    RowTranslationsFailsIff(cols, row, Languages);
  }

  /** The language loop raises exactly when one language's lookups raise. */
  lemma {:induction false} RowTranslationsFailsIff(cols: seq<string>, row: seq<Cell>, langs: seq<string>)
    ensures RowTranslations(cols, row, langs).Err? <==>
              exists k :: 0 <= k < |langs| && LanguageTranslation(cols, row, langs[k]).Err?
  {
    if langs != [] {
      var init := langs[..|langs| - 1];
      RowTranslationsFailsIff(cols, row, init);
      assert forall k :: 0 <= k < |init| ==> langs[k] == init[k];
      assert langs[|langs| - 1] == langs[|init|];
    }
  }

  /**
   * With no two cleaned column names alike no lookup meets a Series, and the
   * conversion fails exactly when there are rows and no "term" column.
   */
  lemma ConvertDistinctFailsIff(cols: seq<string>, rows: seq<seq<Cell>>)
    requires forall i, j :: 0 <= i < j < |cols| ==> cols[i] != cols[j]
    ensures Convert(cols, rows).Err? <==> "term" !in cols && rows != []
  {
    ConvertFailsIff(cols, rows);
    forall i | 0 <= i < |rows|
      ensures RowFails(cols, rows[i]) <==> "term" !in cols
    {
      RowFailsIff(cols, rows[i]);
      forall k | 0 <= k < |Languages|
        ensures LanguageTranslation(cols, rows[i], Languages[k]).Ok?
      {
        DistinctFirstValueOk(cols, rows[i], TranslationColumns(Languages[k]));
        DistinctFirstValueOk(cols, rows[i], DescriptionColumns(Languages[k]));
      }
    }
  }

  lemma {:induction false} DistinctFirstValueOk(cols: seq<string>, row: seq<Cell>, cands: seq<string>)
    requires forall i, j :: 0 <= i < j < |cols| ==> cols[i] != cols[j]
    ensures FirstValue(cols, row, cands).Ok?
  {
    if cands != [] {
      LookupColumnSpec(cols, row, cands[0]);
      DistinctFirstValueOk(cols, row, cands[1..]);
    }
  }

  /** Two columns cleaned to "term" make the first row raise, as the term is then a Series. */
  lemma DuplicatedTermFails()
    ensures Convert(["term", "term"], [[Value("a"), Value("b")]]) == Err(AmbiguousMessage)
  {
    var cols: seq<string> := ["term", "term"];
    assert cols[0] == "term" && cols[1] == "term";
    assert Duplicated(cols, "term");
  }

  /** The positions of the rows whose term cell is not NaN, in row order. */
  function TermRows(cols: seq<string>, rows: seq<seq<Cell>>): (r: seq<nat>)
    ensures forall k :: 0 <= k < |r| ==> r[k] < |rows|
  {
    if rows == [] then []
    else
      TermRows(cols, rows[..|rows| - 1])
      + (if HasValue(LookupColumn(cols, rows[|rows| - 1], "term")) then [|rows| - 1] else [])
  }

  /** `TermRows` lists exactly the rows with a term cell that is not NaN, each once and in increasing order. */
  lemma {:induction false} TermRowsSpec(cols: seq<string>, rows: seq<seq<Cell>>)
    ensures var ts := TermRows(cols, rows);
            (forall k :: 0 <= k < |ts| ==> HasValue(LookupColumn(cols, rows[ts[k]], "term")))
            && (forall k, l :: 0 <= k < l < |ts| ==> ts[k] < ts[l])
            && (forall i :: 0 <= i < |rows| && HasValue(LookupColumn(cols, rows[i], "term")) ==> i in ts)
  {
    if rows != [] {
      var init := rows[..|rows| - 1];
      TermRowsSpec(cols, init);
      assert forall i :: 0 <= i < |init| ==> rows[i] == init[i];
    }
  }

  /** The text of a row's term cell, or "" when it has none. */
  function TermText(cols: seq<string>, row: seq<Cell>): string {
    var l := LookupColumn(cols, row, "term");
    if HasValue(l) then l.cell.text else ""
  }

  /**
   * A successful conversion has one entry per row with a term, in row
   * order: entry `k` is built from the `k`-th such row, and the rows with a
   * NaN term are the only ones skipped.
   */
  lemma ConvertRowwise(cols: seq<string>, rows: seq<seq<Cell>>)
    requires Convert(cols, rows).Ok?
    ensures var es, ts := Convert(cols, rows).value, TermRows(cols, rows);
            |es| == |ts|
            && forall k :: 0 <= k < |ts| ==> RowEntry(cols, rows[ts[k]], TermText(cols, rows[ts[k]])) == Ok(es[k])
  {
    ConvertWithRowwise(cols, rows, EntryOf(cols));
  }

  lemma {:induction false} ConvertWithRowwise(cols: seq<string>, rows: seq<seq<Cell>>, build: (seq<Cell>, string) -> Result<GlossaryEntry, string>)
    requires ConvertWith(cols, rows, build).Ok?
    ensures var es, ts := ConvertWith(cols, rows, build).value, TermRows(cols, rows);
            |es| == |ts|
            && forall k :: 0 <= k < |ts| ==> build(rows[ts[k]], TermText(cols, rows[ts[k]])) == Ok(es[k])
  {
    if rows != [] {
      var init := rows[..|rows| - 1];
      ConvertWithRowwise(cols, init, build);
      assert forall i :: 0 <= i < |init| ==> rows[i] == init[i];
    }
  }

  /**
   * Every entry's term, part of speech and description are stripped (or
   * null); null means a NaN cell, and a missing column gives "".
   */
  lemma RowEntryFields(cols: seq<string>, row: seq<Cell>, termText: string)
    requires RowEntry(cols, row, termText).Ok?
    ensures var e := RowEntry(cols, row, termText).value;
            Strip(e.term) == e.term
            && (e.partOfSpeech.Null? <==> LookupColumn(cols, row, "part_of_speech") == Present(NaN))
            && (e.description.Null? <==> LookupColumn(cols, row, "description") == Present(NaN))
            && (e.partOfSpeech == Text("") <== LookupColumn(cols, row, "part_of_speech").Absent?)
            && (e.description == Text("") <== LookupColumn(cols, row, "description").Absent?)
            && (e.partOfSpeech.Text? ==> Strip(e.partOfSpeech.s) == e.partOfSpeech.s)
            && (e.description.Text? ==> Strip(e.description.s) == e.description.s)
            && !e.partOfSpeech.Missing? && !e.description.Missing?
  {
    var e := RowEntry(cols, row, termText).value;
    assert e.term == Strip(termText);
    assert e.partOfSpeech == OptionalText(LookupColumn(cols, row, "part_of_speech"));
    assert e.description == OptionalText(LookupColumn(cols, row, "description"));
    StripIdempotent(termText);
    OptionalTextStripped(LookupColumn(cols, row, "part_of_speech"));
    OptionalTextStripped(LookupColumn(cols, row, "description"));
  }

  lemma OptionalTextStripped(l: Lookup)
    requires !l.Several?
    ensures OptionalText(l).Null? <==> l == Present(NaN)
    ensures OptionalText(l).Text? ==> Strip(OptionalText(l).s) == OptionalText(l).s
    ensures !OptionalText(l).Missing?
  {
    if l.Present? && l.cell.Value? {
      StripIdempotent(l.cell.text);
    }
  }

  /** The position of a language in the visiting order. */
  function LanguageRank(lang: string): int {
    if lang == "en" then 0 else if lang == "es" then 1 else if lang == "fr" then 2
    else if lang == "de" then 3 else if lang == "it" then 4 else if lang == "ja" then 5
    else if lang == "ko" then 6 else if lang == "zh" then 7 else -1
  }

  lemma LanguageRankOfIndex(k: nat)
    requires k < |Languages|
    ensures LanguageRank(Languages[k]) == k
  {
  }

  /** Every translation's language is among the first `n` languages, and the list follows the visiting order strictly. */
  predicate RankedBelow(ts: seq<GlossaryTranslation>, n: int) {
    (forall i :: 0 <= i < |ts| ==> 0 <= LanguageRank(ts[i].languageIso) < n)
    && (forall i, j :: 0 <= i < j < |ts| ==> LanguageRank(ts[i].languageIso) < LanguageRank(ts[j].languageIso))
  }

  lemma RankedSnoc(ts: seq<GlossaryTranslation>, t: GlossaryTranslation, n: nat)
    requires RankedBelow(ts, n) && LanguageRank(t.languageIso) == n
    ensures RankedBelow(ts + [t], n + 1)
  {
    var us := ts + [t];
    forall i | 0 <= i < |us|
      ensures 0 <= LanguageRank(us[i].languageIso) < n + 1
    {
      if i < |ts| {
        assert us[i] == ts[i];
      } else {
        assert us[i] == t;
      }
    }
    forall i, j | 0 <= i < j < |us|
      ensures LanguageRank(us[i].languageIso) < LanguageRank(us[j].languageIso)
    {
      assert us[i] == ts[i];
      if j < |ts| {
        assert us[j] == ts[j];
      }
    }
  }

  /** The translations for the first `n` languages are ranked below `n`, in strictly increasing order. */
  lemma {:induction false} RowTranslationsOrdered(cols: seq<string>, row: seq<Cell>, n: nat)
    requires n <= |Languages|
    ensures RowTranslations(cols, row, Languages[..n]).Ok? ==>
              RankedBelow(RowTranslations(cols, row, Languages[..n]).value, n)
  {
    if n > 0 {
      var prefix := Languages[..n];
      assert prefix[..n - 1] == Languages[..n - 1];
      assert prefix[n - 1] == Languages[n - 1];
      RowTranslationsOrdered(cols, row, n - 1);
      LanguageRankOfIndex(n - 1);
      var prev := RowTranslations(cols, row, Languages[..n - 1]);
      var lt := LanguageTranslation(cols, row, Languages[n - 1]);
      if prev.Ok? && lt.Ok? {
        if lt.value.Some? {
          assert RowTranslations(cols, row, prefix) == Ok(prev.value + [lt.value.value]);
          RankedSnoc(prev.value, lt.value.value, n - 1);
        } else {
          assert RowTranslations(cols, row, prefix) == prev;
        }
      }
    }
  }

  /**
   * A row's translations follow the order en, es, fr, de, it, ja, ko, zh,
   * so there is at most one per language; every translation is non-empty
   * and stripped, and a description appears only when it is non-empty.
   */
  lemma RowTranslationsShape(cols: seq<string>, row: seq<Cell>)
    requires RowTranslations(cols, row, Languages).Ok?
    ensures var ts := RowTranslations(cols, row, Languages).value;
            (forall i :: 0 <= i < |ts| ==> ts[i].languageIso in Languages)
            && (forall i, j :: 0 <= i < j < |ts| ==> ts[i].languageIso != ts[j].languageIso)
            && (forall i :: 0 <= i < |ts| ==> ts[i].translation != [] && Strip(ts[i].translation) == ts[i].translation)
            && (forall i :: 0 <= i < |ts| ==> ts[i].description.Missing? || (ts[i].description.Text? && ts[i].description.s != []))
  {
    RowTranslationsOrdered(cols, row, |Languages|);
    assert Languages[..|Languages|] == Languages;
    var ts := RowTranslations(cols, row, Languages).value;
    forall i | 0 <= i < |ts|
      ensures ts[i].languageIso in Languages
      ensures ts[i].translation != [] && Strip(ts[i].translation) == ts[i].translation
      ensures ts[i].description.Missing? || (ts[i].description.Text? && ts[i].description.s != [])
    {
      RowTranslationsMember(cols, row, Languages, i);
    }
  }

  /** Every translation in the list comes from `LanguageTranslation` for one of the languages. */
  lemma {:induction false} RowTranslationsMember(cols: seq<string>, row: seq<Cell>, langs: seq<string>, i: nat)
    requires RowTranslations(cols, row, langs).Ok? && i < |RowTranslations(cols, row, langs).value|
    ensures var t := RowTranslations(cols, row, langs).value[i];
            t.languageIso in langs && t.translation != [] && Strip(t.translation) == t.translation
            && (t.description.Missing? || (t.description.Text? && t.description.s != []))
  {
    var init := langs[..|langs| - 1];
    var prev := RowTranslations(cols, row, init).value;
    if i < |prev| {
      RowTranslationsMember(cols, row, init, i);
    } else {
      var lang := langs[|langs| - 1];
      var t := LanguageTranslation(cols, row, lang).value.value;
      assert RowTranslations(cols, row, langs).value == prev + [t];
      LanguageTranslationShape(cols, row, lang);
    }
  }

  /** A translation entry has a non-empty stripped translation, and a description only when it is non-empty. */
  lemma LanguageTranslationShape(cols: seq<string>, row: seq<Cell>, lang: string)
    requires LanguageTranslation(cols, row, lang).Ok? && LanguageTranslation(cols, row, lang).value.Some?
    ensures var t := LanguageTranslation(cols, row, lang).value.value;
            t.languageIso == lang && t.translation != [] && Strip(t.translation) == t.translation
            && (t.description.Missing? || (t.description.Text? && t.description.s != []))
  {
    FirstValueStripped(cols, row, TranslationColumns(lang));
  }

  /** A value found by a candidate loop is stripped. */
  lemma {:induction false} FirstValueStripped(cols: seq<string>, row: seq<Cell>, cands: seq<string>)
    requires FirstValue(cols, row, cands).Ok? && FirstValue(cols, row, cands).value.Some?
    ensures Strip(FirstValue(cols, row, cands).value.value) == FirstValue(cols, row, cands).value.value
  {
    var l := LookupColumn(cols, row, cands[0]);
    if Stops(l) {
      StripIdempotent(l.cell.text);
    } else {
      FirstValueStripped(cols, row, cands[1..]);
    }
  }

  /**
   * The first candidate that exists with a non-NaN cell decides: when its
   * text is blank, the language gets no entry even if a later candidate
   * column is filled (unless the description lookup raises).
   */
  lemma FirstCandidateDecides(cols: seq<string>, row: seq<Cell>, lang: string, k: nat)
    requires FirstStop(cols, row, TranslationColumns(lang), k)
    requires HasValue(LookupColumn(cols, row, TranslationColumns(lang)[k]))
    requires AllSpace(LookupColumn(cols, row, TranslationColumns(lang)[k]).cell.text)
    ensures LanguageTranslation(cols, row, lang)
            == if FirstValue(cols, row, DescriptionColumns(lang)).Err? then Err(AmbiguousMessage) else Ok(None)
  {
    var cands := TranslationColumns(lang);
    FirstValueSpec(cols, row, cands);
    var k' :| FirstStop(cols, row, cands, k')
              && FirstValue(cols, row, cands) == StopValue(LookupColumn(cols, row, cands[k']));
    assert k' == k;
    var text := LookupColumn(cols, row, cands[k]).cell.text;
    assert Strip(text) == [];
    assert FirstValue(cols, row, cands) == Ok(Some([]));
  }

  /** The upper-case candidate (`EN`, `ES`, ...) is never a cleaned column name, so it never matches. */
  lemma UpperCandidateNeverMatches(columns: seq<string>, row: seq<Cell>, lang: string)
    requires lang in Languages
    ensures LookupColumn(CleanColumns(columns), row, Upper(lang)) == Absent
  {
    var u := Upper(lang);
    assert u[0] == UpperChar(lang[0]);
    assert IsUpperAscii(u[0]);
    var cols := CleanColumns(columns);
    forall i | 0 <= i < |cols|
      ensures cols[i] != u
    {
      assert IsLowercase(cols[i]);
    }
    LookupColumnSpec(cols, row, u);
  }
}
