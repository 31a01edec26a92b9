/** The locale table `LocalizationManager` builds from the locales CSV, as a
    value: the languages, the records the CSV yields, how they fill the table
    one by one, and the lookup. */
module LocaleTable {
  import opened Wrappers
  import opened CsvValues
  import opened CsvBinder
  import CsvScanner
  import CsvSerializer

  /** `Lang` (lines 11-15). */
  datatype Lang = RU | EN

  /** A `CsvLocale` record (lines 18-28); `None` stands for a null string. */
  datatype CsvLocale = CsvLocale(key: Option<string>, language: Option<string>, text: Option<string>)

  /** The fields `Deserialize<CsvLocale>` fills, in declaration order. */
  const LocaleShape: Shape := [Field("Key", Text), Field("Language", Text), Field("Text", Text)]

  /** A `string` field's value: its text, or `None` while it is null. */
  function AsText(v: Value): Option<string> {
    if v.Str? then Some(v.text) else None
  }

  function LocaleOf(record: seq<Value>): CsvLocale
    requires |record| == |LocaleShape|
  {
    CsvLocale(AsText(record[0]), AsText(record[1]), AsText(record[2]))
  }

  function LocalesOf(records: seq<seq<Value>>): seq<CsvLocale>
    requires forall i :: 0 <= i < |records| ==> |records[i]| == |LocaleShape|
  {
    seq(|records|, i requires 0 <= i < |records| => LocaleOf(records[i]))
  }

  /** `Enum.TryParse<Lang>` on a member name: exactly the two names parse,
      each to its own member; a null string does not parse. */
  function ParseLang(s: Option<string>): (r: Option<Lang>)
    ensures r == Some(RU) <==> s == Some("RU")
    ensures r == Some(EN) <==> s == Some("EN")
  {
    if s == Some("RU") then Some(RU)
    else if s == Some("EN") then Some(EN)
    else None
  }

  /** `_localesDict`: per language, the text of every key (`None` for a null
      text). */
  type Table = map<Lang, map<string, Option<string>>>

  /** The exception that ends `ParseLocales`. */
  datatype LocaleError =
    | CsvFailed(error: CsvError)          // `LoadData` threw
    | NullKey                             // `Add` with a null key
    | KeyTwice(lang: Lang, key: string)   // `Add` of a key the language has

  /** The table as `ParseLocales` leaves it, and the exception that ended it
      early, if any. */
  datatype Loaded = Loaded(table: Table, error: Option<LocaleError>)

  /** One record (lines 69-77): an unknown language is skipped; otherwise the
      language's dictionary is created and stored first, then the key is
      added to it. */
  function AddLocale(t: Table, loc: CsvLocale): Loaded {
    match ParseLang(loc.language)
    case None => Loaded(t, None)
    case Some(lang) =>
      var inner := if lang in t then t[lang] else map[];
      var t1 := t[lang := inner];
      if loc.key.None? then Loaded(t1, Some(NullKey))
      else if loc.key.value in inner then Loaded(t1, Some(KeyTwice(lang, loc.key.value)))
      else Loaded(t[lang := inner[loc.key.value := loc.text]], None)
  }

  /** The records in order from an empty table, stopping at the first
      exception. */
  function Fill(locs: seq<CsvLocale>): Loaded {
    if locs == [] then Loaded(map[], None)
    else
      var prev := Fill(locs[..|locs| - 1]);
      if prev.error.Some? then prev else AddLocale(prev.table, locs[|locs| - 1])
  }

  /** `ParseLocales(localesCsv)` (lines 63-80): the table is cleared first, so
      a CSV that does not deserialize leaves it empty. */
  function Locales(localesCsv: string): Loaded {
    match CsvSerializer.Records(LocaleShape, localesCsv)
    case Failure(e) => Loaded(map[], Some(CsvFailed(e)))
    case Success(records) => Fill(LocalesOf(records))
  }

  /** `TryGetLocale(key, out value)` (lines 82-91) for the selected language
      `lang`: without a dictionary for it, false and "ERROR"; otherwise
      whether the key is there, with its text or null. */
  function Lookup(t: Table, lang: Lang, key: string): (r: (bool, Option<string>))
    ensures lang !in t ==> r == (false, Some("ERROR"))
    ensures lang in t ==> (r.0 <==> key in t[lang])
    ensures lang in t ==> r.1 == if key in t[lang] then t[lang][key] else None
  {
    if lang !in t then (false, Some("ERROR"))
    else if key in t[lang] then (true, t[lang][key])
    else (false, None)
  }

  // ---------------------------------------------------------------------------
  // What the table holds.

  predicate Known(loc: CsvLocale) {
    ParseLang(loc.language).Some?
  }

  /** Record `i` gives `key` in `lang`. */
  predicate Supplies(locs: seq<CsvLocale>, i: int, lang: Lang, key: string) {
    0 <= i < |locs| && ParseLang(locs[i].language) == Some(lang) && locs[i].key == Some(key)
  }

  /** The table maps the record's key in its language to its text. */
  predicate Holds(t: Table, loc: CsvLocale) {
    && Known(loc) && loc.key.Some?
    && ParseLang(loc.language).value in t
    && loc.key.value in t[ParseLang(loc.language).value]
    && t[ParseLang(loc.language).value][loc.key.value] == loc.text
  }

  /** Every record of a known language has a key, and no two of them give the
      same key in the same language. */
  predicate WellKeyed(locs: seq<CsvLocale>) {
    && (forall i :: 0 <= i < |locs| && Known(locs[i]) ==> locs[i].key.Some?)
    && (forall i, j :: 0 <= i < j < |locs| && Known(locs[i]) && ParseLang(locs[i].language) == ParseLang(locs[j].language)
          ==> locs[i].key != locs[j].key)
  }

  /** What loading `locs` into `ld` means: no exception exactly when the
      records are well keyed; a dictionary only for a language some record
      gives; and, when well keyed, every record of a known language held and
      nothing held that no record supplies. */
  ghost predicate Describes(locs: seq<CsvLocale>, ld: Loaded) {
    && (ld.error.None? <==> WellKeyed(locs))
    && (forall l :: l in ld.table ==> exists i :: 0 <= i < |locs| && ParseLang(locs[i].language) == Some(l))
    && (WellKeyed(locs) ==> forall i :: 0 <= i < |locs| && Known(locs[i]) ==> Holds(ld.table, locs[i]))
    && (WellKeyed(locs) ==> forall l, k :: l in ld.table && k in ld.table[l] ==> exists i :: Supplies(locs, i, l, k))
  }

  /** The loading of any records is described by them. */
  lemma {:induction false} FillMeaning(locs: seq<CsvLocale>)
    ensures Describes(locs, Fill(locs))
  {
    if locs != [] {
      var init, loc := locs[..|locs| - 1], locs[|locs| - 1];
      assert locs == init + [loc];
      FillMeaning(init);
      var prev := Fill(init);
      if prev.error.Some? {
        FailureKept(init, loc, prev);
      } else if !Known(loc) {
        SkippedRecord(init, loc, prev);
      } else if loc.key.None? || (ParseLang(loc.language).value in prev.table && loc.key.value in prev.table[ParseLang(loc.language).value]) {
        RejectedRecord(init, loc, prev);
      } else {
        AcceptedRecord(init, loc, prev);
      }
    }
  }

  lemma FailureKept(init: seq<CsvLocale>, loc: CsvLocale, prev: Loaded)
    requires Describes(init, prev) && prev.error.Some?
    ensures Describes(init + [loc], prev)
  {
    var locs := init + [loc];
    assert forall i :: 0 <= i < |init| ==> locs[i] == init[i];
    assert !WellKeyed(init);
    assert !WellKeyed(locs);
  }

  lemma SkippedRecord(init: seq<CsvLocale>, loc: CsvLocale, prev: Loaded)
    requires Describes(init, prev) && prev.error.None? && !Known(loc)
    ensures Describes(init + [loc], AddLocale(prev.table, loc))
  {
    var locs := init + [loc];
    assert forall i :: 0 <= i < |init| ==> locs[i] == init[i];
    assert WellKeyed(locs);
    assert forall l, k, i :: Supplies(init, i, l, k) ==> Supplies(locs, i, l, k);
  }

  lemma RejectedRecord(init: seq<CsvLocale>, loc: CsvLocale, prev: Loaded)
    requires Describes(init, prev) && prev.error.None? && Known(loc)
    requires var lang := ParseLang(loc.language).value;
      loc.key.None? || (lang in prev.table && loc.key.value in prev.table[lang])
    ensures Describes(init + [loc], AddLocale(prev.table, loc))
  {
    var locs, n := init + [loc], |init|;
    assert forall i :: 0 <= i < |init| ==> locs[i] == init[i];
    assert locs[n] == loc;
    var lang := ParseLang(loc.language).value;
    if loc.key.Some? {
      var i :| Supplies(init, i, lang, loc.key.value);
      assert locs[i].key == locs[n].key;
    }
    assert !WellKeyed(locs);
    assert ParseLang(locs[n].language) == Some(lang);
  }

  /** A record of a known language whose key that language does not have
      yet: it is added and the records stay well keyed. */
  predicate Fresh(t: Table, loc: CsvLocale) {
    Known(loc) && loc.key.Some? &&
    !(ParseLang(loc.language).value in t && loc.key.value in t[ParseLang(loc.language).value])
  }

  lemma AcceptedRecord(init: seq<CsvLocale>, loc: CsvLocale, prev: Loaded)
    requires Describes(init, prev) && prev.error.None? && Fresh(prev.table, loc)
    ensures Describes(init + [loc], AddLocale(prev.table, loc))
  {
    AcceptedWellKeyed(init, loc, prev);
    AcceptedHolds(init, loc, prev);
    AcceptedLanguages(init, loc, prev);
    AcceptedSupplied(init, loc, prev);
  }

  lemma AcceptedWellKeyed(init: seq<CsvLocale>, loc: CsvLocale, prev: Loaded)
    requires Describes(init, prev) && prev.error.None? && Fresh(prev.table, loc)
    ensures WellKeyed(init + [loc])
  {
    var locs, n, t := init + [loc], |init|, prev.table;
    assert forall i :: 0 <= i < |init| ==> locs[i] == init[i];
    assert locs[n] == loc;
    forall i, j | 0 <= i < j < |locs| && Known(locs[i]) && ParseLang(locs[i].language) == ParseLang(locs[j].language)
      ensures locs[i].key != locs[j].key
    {
      if j == n {
        assert Holds(t, init[i]);
      }
    }
  }

  lemma AcceptedHolds(init: seq<CsvLocale>, loc: CsvLocale, prev: Loaded)
    requires forall i :: 0 <= i < |init| && Known(init[i]) ==> Holds(prev.table, init[i])
    requires Fresh(prev.table, loc)
    ensures forall i :: 0 <= i < |init| + 1 && Known((init + [loc])[i]) ==> Holds(AddLocale(prev.table, loc).table, (init + [loc])[i])
  {
    var locs := init + [loc];
    forall i | 0 <= i < |locs| && Known(locs[i])
      ensures Holds(AddLocale(prev.table, loc).table, locs[i])
    {
      if i < |init| {
        assert locs[i] == init[i];
        StillHolds(prev.table, loc, init[i]);
      } else {
        assert locs[i] == loc;
      }
    }
  }

  /** Adding a fresh record keeps every entry already held. */
  lemma StillHolds(t: Table, loc: CsvLocale, other: CsvLocale)
    requires Fresh(t, loc) && Holds(t, other)
    ensures Holds(AddLocale(t, loc).table, other)
  {
    var lang, key := ParseLang(loc.language).value, loc.key.value;
    var inner := if lang in t then t[lang] else map[];
    assert AddLocale(t, loc).table == t[lang := inner[key := loc.text]];
  }

  lemma AcceptedLanguages(init: seq<CsvLocale>, loc: CsvLocale, prev: Loaded)
    requires Describes(init, prev) && prev.error.None? && Fresh(prev.table, loc)
    ensures forall l :: l in AddLocale(prev.table, loc).table ==>
              exists i :: 0 <= i < |init| + 1 && ParseLang((init + [loc])[i].language) == Some(l)
  {
    var locs, n, t := init + [loc], |init|, prev.table;
    var lang := ParseLang(loc.language).value;
    var t' := AddLocale(t, loc).table;
    assert t'.Keys == t.Keys + {lang};
    forall l | l in t'
      ensures exists i :: 0 <= i < |locs| && ParseLang(locs[i].language) == Some(l)
    {
      if l == lang {
        assert locs[n] == loc;
      } else {
        var i :| 0 <= i < n && ParseLang(init[i].language) == Some(l);
        assert locs[i] == init[i];
      }
    }
  }

  lemma AcceptedSupplied(init: seq<CsvLocale>, loc: CsvLocale, prev: Loaded)
    requires Describes(init, prev) && prev.error.None? && Fresh(prev.table, loc)
    ensures var t' := AddLocale(prev.table, loc).table;
      forall l, k :: l in t' && k in t'[l] ==> exists i :: Supplies(init + [loc], i, l, k)
  {
    var locs, n, t := init + [loc], |init|, prev.table;
    var lang, key := ParseLang(loc.language).value, loc.key.value;
    var inner := if lang in t then t[lang] else map[];
    var t' := AddLocale(t, loc).table;
    assert t' == t[lang := inner[key := loc.text]];
    forall l, k | l in t' && k in t'[l]
      ensures exists i :: Supplies(locs, i, l, k)
    {
      if l == lang && k == key {
        assert locs[n] == loc;
        assert Supplies(locs, n, l, k);
      } else {
        assert l in t && k in t[l];
        var i :| Supplies(init, i, l, k);
        assert locs[i] == init[i];
        assert Supplies(locs, i, l, k);
      }
    }
  }

  /** Once an exception has ended the first `j` records, the rest are never
      read. */
  lemma {:induction false} FillStops(locs: seq<CsvLocale>, j: nat)
    requires j <= |locs| && Fill(locs[..j]).error.Some?
    ensures Fill(locs) == Fill(locs[..j])
  {
    if j == |locs| {
      assert locs[..j] == locs;
    } else {
      var init := locs[..|locs| - 1];
      assert init[..j] == locs[..j];
      FillStops(init, j);
    }
  }

  /** A record of any other language, or with no language, changes nothing. */
  lemma UnknownLanguageSkipped(locs: seq<CsvLocale>, loc: CsvLocale)
    requires !Known(loc)
    ensures Fill(locs + [loc]) == Fill(locs)
  {
    assert (locs + [loc])[..|locs|] == locs;
  }

  /** Three distinct headers, none naming another. */
  lemma LocaleHeadersDistinct()
    ensures Distinct(["Key", "Language", "Text"], 3)
  {
    var h := ["Key", "Language", "Text"];
    assert |DerivedKey(h[0])| <= 3 && |DerivedKey(h[1])| <= 8;
    assert !IsLowerOrDigit('T');
    assert h[2][0] == 'T';
  }

  /** The record a row of three non-empty cells gives. */
  function RowLocale(row: CsvScanner.Row): CsvLocale
    requires |row| == 3
  {
    CsvLocale(Some(row[0]), Some(row[1]), Some(row[2]))
  }

  /** Rows of non-empty, backslash-free cells under the header
      `Key,Language,Text`, written out, read back as one record per row with
      exactly that row's cells. */
  lemma LocaleRecords(data: seq<CsvScanner.Row>, style: CsvScanner.QuoteStyle)
    requires forall r :: 0 <= r < |data| ==> |data[r]| == 3 && CsvScanner.NoBackslash(data[r])
    requires forall r, c :: 0 <= r < |data| && 0 <= c < 3 ==> data[r][c] != []
    ensures var records := CsvSerializer.Records(LocaleShape, CsvScanner.Encode([["Key", "Language", "Text"]] + data, style));
      records.Success? &&
      var locs := LocalesOf(records.value);
      |locs| == |data| && forall r :: 0 <= r < |data| ==> locs[r] == RowLocale(data[r])
  {
    var header := ["Key", "Language", "Text"];
    LocaleHeadersDistinct();
    assert CsvScanner.NoBackslash(header);
    CsvSerializer.TextTableRoundTrip(LocaleShape, header, data, style);
    var records := CsvSerializer.Records(LocaleShape, CsvScanner.Encode([header] + data, style)).value;
    LocalesOfCells(records, data);
  }

  lemma LocalesOfCells(records: seq<seq<Value>>, data: seq<CsvScanner.Row>)
    requires |records| == |data|
    requires forall r :: 0 <= r < |data| ==> |records[r]| == 3 && |data[r]| == 3
    requires forall r, c :: 0 <= r < |data| && 0 <= c < 3 ==> records[r][c] == Str(data[r][c])
    ensures var locs := LocalesOf(records);
      |locs| == |data| && forall r :: 0 <= r < |data| ==> locs[r] == RowLocale(data[r])
  {
    forall r | 0 <= r < |data|
      ensures LocaleOf(records[r]) == RowLocale(data[r])
    {
      assert records[r][0] == Str(data[r][0]) && records[r][1] == Str(data[r][1]) && records[r][2] == Str(data[r][2]);
    }
  }

  /** Rows naming `RU` or `EN`, no key twice in a language, are well keyed. */
  lemma RowsWellKeyed(data: seq<CsvScanner.Row>, locs: seq<CsvLocale>)
    requires forall r :: 0 <= r < |data| ==> |data[r]| == 3
    requires forall r :: 0 <= r < |data| ==> data[r][1] == "RU" || data[r][1] == "EN"
    requires forall r, s :: 0 <= r < s < |data| && data[r][1] == data[s][1] ==> data[r][0] != data[s][0]
    requires |locs| == |data| && forall r :: 0 <= r < |data| ==> locs[r] == RowLocale(data[r])
    ensures WellKeyed(locs)
  {
    forall i, j | 0 <= i < j < |locs| && Known(locs[i]) && ParseLang(locs[i].language) == ParseLang(locs[j].language)
      ensures locs[i].key != locs[j].key
    {
      assert locs[i].language == Some(data[i][1]) && locs[j].language == Some(data[j][1]);
    }
  }

  /** A locales CSV written with the header `Key,Language,Text` and rows of
      non-empty, backslash-free cells, each row naming `RU` or `EN`, no key
      twice in a language, loads without an exception, and every row's text
      is then found under its key for its language. */
  lemma {:induction false} LocalesRoundTrip(data: seq<CsvScanner.Row>, style: CsvScanner.QuoteStyle)
    requires forall r :: 0 <= r < |data| ==> |data[r]| == 3 && CsvScanner.NoBackslash(data[r])
    requires forall r, c :: 0 <= r < |data| && 0 <= c < 3 ==> data[r][c] != []
    requires forall r :: 0 <= r < |data| ==> data[r][1] == "RU" || data[r][1] == "EN"
    requires forall r, s :: 0 <= r < s < |data| && data[r][1] == data[s][1] ==> data[r][0] != data[s][0]
    ensures var loaded := Locales(CsvScanner.Encode([["Key", "Language", "Text"]] + data, style));
      loaded.error == None &&
      forall r :: 0 <= r < |data| ==>
        Lookup(loaded.table, if data[r][1] == "RU" then RU else EN, data[r][0]) == (true, Some(data[r][2]))
  {
    LocaleRecords(data, style);
    var csv := CsvScanner.Encode([["Key", "Language", "Text"]] + data, style);
    var locs := LocalesOf(CsvSerializer.Records(LocaleShape, csv).value);
    assert Locales(csv) == Fill(locs);
    RowsWellKeyed(data, locs);
    FillMeaning(locs);
    forall r | 0 <= r < |data|
      ensures Lookup(Fill(locs).table, if data[r][1] == "RU" then RU else EN, data[r][0]) == (true, Some(data[r][2]))
    {
      assert Holds(Fill(locs).table, locs[r]);
    }
  }

  // ---------------------------------------------------------------------------
  // The selected language.

  /** `SetLanguage(lang)` (lines 93-102) on the selected language and the
      number of `OnLanguageChanged` events raised so far. */
  function SelectLanguage(selected: Lang, raised: nat, lang: Lang): (r: (Lang, nat))
    ensures r.0 == lang
    ensures r.1 == raised <==> lang == selected
    ensures r.1 <= raised + 1
  {
    if lang == selected then (selected, raised) else (lang, raised + 1)
  }

  /** Selecting the same language twice raises the event at most once. */
  lemma SelectLanguageIdempotent(selected: Lang, raised: nat, lang: Lang)
    ensures var once := SelectLanguage(selected, raised, lang);
      SelectLanguage(once.0, once.1, lang) == once
  {
  }
}

/** `LocalizationManager`: the locale table, the selected language, and the
    download callback that fills the table and opens its ready gate. */
module Localization {
  import opened Wrappers
  import opened CsvValues
  import opened LocaleTable
  import opened ReadyGate
  import opened ReadyChecker
  import CsvSerializer
  import DownloadModel
  import Downloader

  class LocalizationManager {
    var localesDict: Table
    var selectedLanguage: Lang
    var languageChanged: nat   // `OnLanguageChanged` events raised so far
    /** The static state of `StaticReadyChecker<LocalizationManager>`. */
    const ready: StaticReadyChecker<LocalizationManager>

    constructor (ready: StaticReadyChecker<LocalizationManager>)
      ensures localesDict == map[] && selectedLanguage == RU && languageChanged == 0
      ensures this.ready == ready
    {
      localesDict := map[];
      selectedLanguage := RU;
      languageChanged := 0;
      this.ready := ready;
    }

    /** `ParseLocales(localesCsv)`; `error` is the exception that ended it. */
    method ParseLocales(localesCsv: string) returns (error: Option<LocaleError>)
      modifies this
      ensures Loaded(localesDict, error) == Locales(localesCsv)
      ensures selectedLanguage == old(selectedLanguage) && languageChanged == old(languageChanged)
    {
      localesDict := map[];
      var csvLocales := CsvSerializer.Deserialize(LocaleShape, localesCsv);
      if csvLocales.Failure? {
        return Some(CsvFailed(csvLocales.error));
      }
      error := AddAll(csvLocales.value);
    }

    /** The loop of lines 67-79 over the deserialized records, from an empty
        table. */
    method AddAll(records: seq<seq<Value>>) returns (error: Option<LocaleError>)
      requires localesDict == map[]
      requires forall i :: 0 <= i < |records| ==> |records[i]| == |LocaleShape|
      modifies this
      ensures Loaded(localesDict, error) == Fill(LocalesOf(records))
      ensures selectedLanguage == old(selectedLanguage) && languageChanged == old(languageChanged)
    {
      ghost var locs := LocalesOf(records);
      for i := 0 to |records|
        invariant Fill(locs[..i]) == Loaded(localesDict, None)
        invariant selectedLanguage == old(selectedLanguage) && languageChanged == old(languageChanged)
      {
        var csvLocale := LocaleOf(records[i]);
        assert locs[..i + 1][..i] == locs[..i] && locs[i] == csvLocale;
        error := AddRecord(csvLocale);
        if error.Some? {
          FillStops(locs, i + 1);
          return;
        }
      }
      assert locs[..|records|] == locs;
      error := None;
    }

    /** One record (lines 69-77). */
    method AddRecord(csvLocale: CsvLocale) returns (error: Option<LocaleError>)
      modifies this
      ensures Loaded(localesDict, error) == AddLocale(old(localesDict), csvLocale)
      ensures selectedLanguage == old(selectedLanguage) && languageChanged == old(languageChanged)
    {
      error := None;
      var lang := ParseLang(csvLocale.language);
      if lang.None? {
        return;
      }
      var localesDisc: map<string, Option<string>>;
      if lang.value in localesDict {
        localesDisc := localesDict[lang.value];
      } else {
        localesDisc := map[];
        localesDict := localesDict[lang.value := localesDisc];
      }
      if csvLocale.key.None? {
        return Some(NullKey);
      }
      if csvLocale.key.value in localesDisc {
        return Some(KeyTwice(lang.value, csvLocale.key.value));
      }
      localesDict := localesDict[lang.value := localesDisc[csvLocale.key.value := csvLocale.text]];
    }

    /** `TryGetLocale(key, out value)` for the selected language. */
    function TryGetLocale(key: string): (r: (bool, Option<string>))
      reads this
      ensures r == Lookup(localesDict, selectedLanguage, key)
    {
      if selectedLanguage in localesDict then
        (key in localesDict[selectedLanguage],
         if key in localesDict[selectedLanguage] then localesDict[selectedLanguage][key] else None)
      else (false, Some("ERROR"))
    }

    /** `SetLanguage(lang)`. */
    method SetLanguage(lang: Lang)
      modifies this
      ensures (selectedLanguage, languageChanged) == SelectLanguage(old(selectedLanguage), old(languageChanged), lang)
      ensures localesDict == old(localesDict)
    {
      if lang == selectedLanguage {
        return;
      }
      selectedLanguage := lang;
      languageChanged := languageChanged + 1;
    }

    /** `OnDownloaded(request)` (lines 54-61): only a finished, successful
        request is parsed, and only a parse that ends without an exception
        reaches `SetReady(this)`, which as written publishes the manager and
        runs the queued actions but leaves the gate closed; `invoked` are the
        actions that runs. */
    method OnDownloaded(request: Downloader.WebRequest) returns (error: Option<LocaleError>, invoked: seq<Action>)
      modifies this, ready
      ensures !(request.isDone && request.result == DownloadModel.Outcome.Success) ==>
                unchanged(this) && unchanged(ready) && error == None && invoked == []
      ensures request.isDone && request.result == DownloadModel.Outcome.Success ==>
                Loaded(localesDict, error) == Locales(request.text) && selectedLanguage == old(selectedLanguage)
      ensures error.Some? ==> unchanged(ready) && invoked == []
      ensures request.isDone && request.result == DownloadModel.Outcome.Success && error == None ==>
                Step(ready.Abs(), invoked) == ReadyGate.SetReady(old(ready.Abs()), this)
    {
      error, invoked := None, [];
      if request.isDone && request.result == DownloadModel.Outcome.Success {
        error := ParseLocales(request.text);
        if error.None? {
          invoked := ready.SetReady(this);
        }
      }
    }

    /** `OnDownloaded(request)` with `SetReady` corrected to open the gate. */
    method OnDownloadedFixed(request: Downloader.WebRequest) returns (error: Option<LocaleError>, invoked: seq<Action>)
      modifies this, ready
      ensures !(request.isDone && request.result == DownloadModel.Outcome.Success) ==>
                unchanged(this) && unchanged(ready) && error == None && invoked == []
      ensures request.isDone && request.result == DownloadModel.Outcome.Success ==>
                Loaded(localesDict, error) == Locales(request.text) && selectedLanguage == old(selectedLanguage)
      ensures error.Some? ==> unchanged(ready) && invoked == []
      ensures request.isDone && request.result == DownloadModel.Outcome.Success && error == None ==>
                Step(ready.Abs(), invoked) == ReadyGate.SetReadyFixed(old(ready.Abs()), this)
    {
      error, invoked := None, [];
      if request.isDone && request.result == DownloadModel.Outcome.Success {
        error := ParseLocales(request.text);
        if error.None? {
          invoked := ready.SetReadyFixed(this);
        }
      }
    }
  }
}
