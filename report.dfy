/** What both checkers share: the dict of missing languages built from the
    languages recorded per key, and the table printed from it. */
module Report {
  import opened Languages
  import StrOrder

  function ToSet(s: seq<Lang>): (r: set<Lang>)
    ensures forall x :: x in r <==> x in s
  {
    set x | x in s
  }

  /** The `translations` dict read through `set(langs)`: each key with the set
      of languages recorded for it. */
  function Coverage(translations: map<string, seq<Lang>>): (coverage: map<string, set<Lang>>)
    ensures coverage.Keys == translations.Keys
    ensures forall k, lang :: k in coverage ==> (lang in coverage[k] <==> lang in translations[k])
  {
    map k | k in translations :: ToSet(translations[k])
  }

  /** `{key: set(languages) - set(langs) for key, langs in translations.items()
      if set(languages) - set(langs)}`: the keys some checked language lacks,
      each with exactly the languages that lack it. */
  function Missing(languages: seq<Lang>, coverage: map<string, set<Lang>>): (missing: map<string, set<Lang>>)
    ensures missing.Keys <= coverage.Keys
    ensures forall k :: k in missing <==> k in coverage && exists lang :: lang in languages && lang !in coverage[k]
    ensures forall k :: k in missing ==> missing[k] != {} && missing[k] <= ToSet(languages)
    ensures forall k, lang :: k in missing ==> (lang in missing[k] <==> lang in languages && lang !in coverage[k])
  {
    var required := ToSet(languages);
    var missing := map k | k in coverage && required - coverage[k] != {} :: required - coverage[k];
    forall k | k in coverage
      ensures required - coverage[k] != {} <==> exists lang :: lang in languages && lang !in coverage[k]
    {
      if required - coverage[k] != {} {
        var lang :| lang in required - coverage[k];
      }
      if lang :| lang in languages && lang !in coverage[k] {
        assert lang in required - coverage[k];
      }
    }
    missing
  }

  /** The column printed for a language that is present. */
  const Blank: string := "  "

  /** One printed line: the key and one column per checked language. */
  datatype Row = Row(key: string, columns: seq<string>)

  function Column(lang: Lang, missing: set<Lang>): string
  {
    if lang in missing then lang else Blank
  }

  /** The columns of one row: `lang if lang in missing[key] else '  '` for
      each checked language, in list order. */
  function Columns(languages: seq<Lang>, missing: set<Lang>): (columns: seq<string>)
    ensures |columns| == |languages|
    ensures forall c :: 0 <= c < |languages| ==>
              columns[c] == if languages[c] in missing then languages[c] else Blank
  {
    seq(|languages|, c requires 0 <= c < |languages| => Column(languages[c], missing))
  }

  /** One row per key of `keys`, in that order. */
  function RowsFor(languages: seq<Lang>, missing: map<string, set<Lang>>, keys: seq<string>): (rows: seq<Row>)
    requires forall k :: k in keys ==> k in missing
    ensures |rows| == |keys|
    ensures forall i :: 0 <= i < |keys| ==>
              rows[i].key == keys[i] && rows[i].columns == Columns(languages, missing[keys[i]])
  {
    if keys == [] then []
    else [Row(keys[0], Columns(languages, missing[keys[0]]))] + RowsFor(languages, missing, keys[1..])
  }

  /** The report: one row per missing key, in `sorted` key order; column `c`
      shows `languages[c]` when that language lacks the key and is blank
      otherwise. */
  function Rows(languages: seq<Lang>, missing: map<string, set<Lang>>): (rows: seq<Row>)
    ensures |rows| == |missing|
    ensures forall k :: k in missing ==> exists i :: 0 <= i < |rows| && rows[i].key == k
    ensures forall i, j :: 0 <= i < j < |rows| ==> StrOrder.Less(rows[i].key, rows[j].key)
    ensures forall i :: 0 <= i < |rows| ==>
              rows[i].key in missing && rows[i].columns == Columns(languages, missing[rows[i].key])
  {
    var keys := StrOrder.Sorted(missing.Keys);
    var rows := RowsFor(languages, missing, keys);
    forall i | 0 <= i < |rows|
      ensures rows[i].key in missing && rows[i].columns == Columns(languages, missing[rows[i].key])
    {
      assert keys[i] in keys;
    }
    forall k | k in missing ensures exists i :: 0 <= i < |rows| && rows[i].key == k {
      var i :| 0 <= i < |keys| && keys[i] == k;
      assert rows[i].key == k;
    }
    rows
  }
}
