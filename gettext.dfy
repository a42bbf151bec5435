/** The gettext check (`_check_gettext_translations`): one catalog per
    checked language, a dict from msgid to the languages that cover it, and
    the msgids some checked language lacks. */
module Gettext {
  import opened Wrappers
  import opened Languages
  import opened Report

  type MsgId = string

  /** A `django.po` file, reduced to the msgids of its translated entries and
      of its untranslated entries. */
  datatype Catalog = Catalog(translated: seq<MsgId>, untranslated: seq<MsgId>)

  /** `_load_po`: the catalog of `lang`, or `None` when its file does not
      exist. `files` holds the catalog files that exist under the locale
      directory, by language. */
  function LoadPo(files: map<Lang, Catalog>, lang: Lang): Option<Catalog>
  {
    if lang in files then Some(files[lang]) else None
  }

  /** `c` lists `m` among its translated entries, or among its untranslated
      ones when those are taken into account. */
  predicate Lists(c: Catalog, m: MsgId, withUntranslated: bool)
  {
    m in c.translated || (withUntranslated && m in c.untranslated)
  }

  /** The catalog of `lang` registers `m`: `m` is translated there, or it is
      untranslated there and untranslated entries count under `check_all`
      or for the source language. */
  predicate Registers(files: map<Lang, Catalog>, checkAll: bool, source: Option<Lang>, lang: Lang, m: MsgId)
  {
    lang in files && Lists(files[lang], m, checkAll || source == Some(lang))
  }

  /** The catalog of `lang` covers `m`: `m` is translated there, or it is an
      untranslated entry and `lang` is the source language. */
  predicate Covers(files: map<Lang, Catalog>, source: Option<Lang>, lang: Lang, m: MsgId)
  {
    lang in files && Lists(files[lang], m, source == Some(lang))
  }

  /** Every msgid of the catalog of `lang`, if it has one. */
  function Entries(files: map<Lang, Catalog>, lang: Lang): seq<MsgId>
  {
    if lang in files then files[lang].translated + files[lang].untranslated else []
  }

  /** The msgids the check knows of: every translated entry of a checked
      language, and its untranslated entries too under `check_all` or when it
      is the source language. */
  ghost function Keys(langs: seq<Lang>, files: map<Lang, Catalog>, checkAll: bool, source: Option<Lang>): set<MsgId>
  {
    set lang, m | lang in langs && m in Entries(files, lang) && Registers(files, checkAll, source, lang, m) :: m
  }

  /** The checked languages that cover `m`: it is translated there, or it is
      an untranslated entry of the source language. */
  ghost function Covering(langs: seq<Lang>, files: map<Lang, Catalog>, source: Option<Lang>, m: MsgId): set<Lang>
  {
    set lang | lang in langs && Covers(files, source, lang, m)
  }

  /** What the `translations` dict holds once built, read through `set(langs)`. */
  ghost function GettextCoverage(langs: seq<Lang>, files: map<Lang, Catalog>, checkAll: bool, source: Option<Lang>)
    : map<MsgId, set<Lang>>
  {
    map m | m in Keys(langs, files, checkAll, source) :: Covering(langs, files, source, m)
  }

  /** The `missing` dict of the gettext check. */
  ghost function GettextMissing(langs: seq<Lang>, files: map<Lang, Catalog>, checkAll: bool, source: Option<Lang>)
    : map<MsgId, set<Lang>>
  {
    Missing(langs, GettextCoverage(langs, files, checkAll, source))
  }

  /** One inner loop over catalog entries: `translations.setdefault(msgid,
      []).append(lang)` when `append` holds, `translations.setdefault(msgid, [])`
      otherwise. */
  method RecordEntries(translations: map<MsgId, seq<Lang>>, entries: seq<MsgId>, lang: Lang, append: bool)
    returns (result: map<MsgId, seq<Lang>>)
    ensures forall m :: m in result <==> m in translations || m in entries
    ensures forall m, l :: m in result ==>
              (l in result[m] <==> (m in translations && l in translations[m]) || (append && l == lang && m in entries))
  {
    result := translations;
    for j := 0 to |entries|
      invariant forall m :: m in result <==> m in translations || m in entries[..j]
      invariant forall m, l :: m in result ==>
                  (l in result[m] <==> (m in translations && l in translations[m]) || (append && l == lang && m in entries[..j]))
    {
      var m := entries[j];
      var langs := if m in result then result[m] else [];
      result := result[m := if append then langs + [lang] else langs];
      assert entries[..j + 1] == entries[..j] + [m];
    }
    assert entries[..|entries|] == entries;
  }

  /** The body of the loop over the catalogs, for one language and its
      catalog `po = _load_po(lang)`: its untranslated entries are registered
      under `check_all` or when it is the source language (and then cover
      it), and its translated entries cover it. */
  method RecordCatalog(translations: map<MsgId, seq<Lang>>, lang: Lang, files: map<Lang, Catalog>, checkAll: bool, source: Option<Lang>)
    returns (result: map<MsgId, seq<Lang>>)
    ensures forall m :: m in result <==> m in translations || Registers(files, checkAll, source, lang, m)
    ensures forall m, l :: m in result ==>
              (l in result[m] <==> (m in translations && l in translations[m]) || (l == lang && Covers(files, source, lang, m)))
  {
    var po := LoadPo(files, lang);
    result := translations;
    if po.Some? {
      if checkAll || source == Some(lang) {
        result := RecordEntries(result, po.value.untranslated, lang, source == Some(lang));
      }
      result := RecordEntries(result, po.value.translated, lang, true);
    }
  }

  /** `translations` holds, read through `set(langs)`, the coverage of the
      catalogs of `langs`. */
  ghost predicate Collected(translations: map<MsgId, seq<Lang>>, langs: seq<Lang>, files: map<Lang, Catalog>,
                            checkAll: bool, source: Option<Lang>)
  {
    && (forall m :: m in translations <==> m in Keys(langs, files, checkAll, source))
    && (forall m, l :: m in translations ==> (l in translations[m] <==> l in Covering(langs, files, source, m)))
  }

  /** One iteration of the loop over the catalogs keeps `Collected`. */
  lemma CollectedStep(before: map<MsgId, seq<Lang>>, after: map<MsgId, seq<Lang>>, langs: seq<Lang>, lang: Lang,
                      files: map<Lang, Catalog>, checkAll: bool, source: Option<Lang>)
    requires Collected(before, langs, files, checkAll, source)
    requires lang in langs ==> after == before
    requires lang !in langs ==> forall m :: m in after <==> m in before || Registers(files, checkAll, source, lang, m)
    requires lang !in langs ==> forall m, l :: m in after ==>
               (l in after[m] <==> (m in before && l in before[m]) || (l == lang && Covers(files, source, lang, m)))
    ensures Collected(after, langs + [lang], files, checkAll, source)
  {
    VisitStep(langs, lang, files, checkAll, source);
  }

  /** `translations` after the loop over the catalogs of `languages`; a
      language listed twice is visited once, as the dict of catalogs keeps
      one entry per language. */
  method CollectTranslations(languages: seq<Lang>, files: map<Lang, Catalog>, checkAll: bool, source: Option<Lang>)
    returns (translations: map<MsgId, seq<Lang>>)
    ensures Coverage(translations) == GettextCoverage(languages, files, checkAll, source)
  {
    translations := map[];
    for i := 0 to |languages|
      invariant Collected(translations, languages[..i], files, checkAll, source)
    {
      var lang := languages[i];
      ghost var before := translations;
      if lang !in languages[..i] {
        translations := RecordCatalog(translations, lang, files, checkAll, source);
      }
      CollectedStep(before, translations, languages[..i], lang, files, checkAll, source);
      assert languages[..i + 1] == languages[..i] + [lang];
    }
    assert languages[..|languages|] == languages;
    CollectedCoverage(translations, languages, files, checkAll, source);
  }

  lemma CollectedCoverage(translations: map<MsgId, seq<Lang>>, langs: seq<Lang>, files: map<Lang, Catalog>,
                          checkAll: bool, source: Option<Lang>)
    requires Collected(translations, langs, files, checkAll, source)
    ensures Coverage(translations) == GettextCoverage(langs, files, checkAll, source)
  {
    var expected := GettextCoverage(langs, files, checkAll, source);
    forall m | m in translations ensures Coverage(translations)[m] == expected[m] {
    }
  }

  /** What visiting one more language does to the msgids and to the
      languages covering each; visiting a language a second time changes
      nothing. */
  lemma VisitStep(langs: seq<Lang>, lang: Lang, files: map<Lang, Catalog>, checkAll: bool, source: Option<Lang>)
    ensures forall m :: m in Keys(langs + [lang], files, checkAll, source) <==>
              m in Keys(langs, files, checkAll, source) || Registers(files, checkAll, source, lang, m)
    ensures forall m :: Covering(langs + [lang], files, source, m) ==
              Covering(langs, files, source, m) + (if Covers(files, source, lang, m) then {lang} else {})
    ensures lang in langs ==> forall m :: Registers(files, checkAll, source, lang, m) ==>
              m in Keys(langs, files, checkAll, source)
    ensures lang in langs ==> forall m :: Covers(files, source, lang, m) ==>
              lang in Covering(langs, files, source, m)
    ensures forall m, l :: l in Covering(langs, files, source, m) ==> m in Keys(langs, files, checkAll, source)
  {
    forall m, l | l in Covering(langs, files, source, m) ensures m in Keys(langs, files, checkAll, source) {
      assert m in Entries(files, l);
    }
    if lang in langs {
      forall m | Registers(files, checkAll, source, lang, m)
        ensures m in Keys(langs, files, checkAll, source)
      {
        assert m in Entries(files, lang);
      }
    }
  }

  /** The gettext check: whether some msgid is missing, and the rows printed. */
  method CheckGettext(languages: seq<Lang>, files: map<Lang, Catalog>, checkAll: bool, source: Option<Lang>)
    returns (found: bool, report: seq<Row>)
    ensures found <==> GettextMissing(languages, files, checkAll, source) != map[]
    ensures report == Rows(languages, GettextMissing(languages, files, checkAll, source))
  {
    var translations := CollectTranslations(languages, files, checkAll, source);
    var missing := Missing(languages, Coverage(translations));
    if missing != map[] {
      report := Rows(languages, missing);
      found := true;
    } else {
      report := [];
      found := false;
    }
  }

  /** A msgid translated in the catalog of every checked language is not
      reported. */
  lemma TranslatedEverywhereNotReported(languages: seq<Lang>, files: map<Lang, Catalog>, checkAll: bool, source: Option<Lang>, m: MsgId)
    requires forall lang :: lang in languages ==> lang in files && m in files[lang].translated
    ensures m !in GettextMissing(languages, files, checkAll, source)
  {
    if m in GettextCoverage(languages, files, checkAll, source) {
      forall lang | lang in languages ensures lang in Covering(languages, files, source, m) {
        assert Covers(files, source, lang, m);
      }
    }
  }

  /** A msgid translated in every checked language but `x`, whose catalog
      does not cover it, is reported with exactly `{x}`. */
  lemma OneGapReported(languages: seq<Lang>, files: map<Lang, Catalog>, checkAll: bool, source: Option<Lang>, m: MsgId, x: Lang, y: Lang)
    requires x in languages && y in languages && y != x
    requires forall lang :: lang in languages && lang != x ==> lang in files && m in files[lang].translated
    requires !Covers(files, source, x, m)
    ensures m in GettextMissing(languages, files, checkAll, source)
    ensures GettextMissing(languages, files, checkAll, source)[m] == {x}
  {
    assert m in Entries(files, y) && Registers(files, checkAll, source, y, m);
    assert m in Keys(languages, files, checkAll, source);
    forall lang | lang in languages && lang != x ensures lang in Covering(languages, files, source, m) {
      assert Covers(files, source, lang, m);
    }
  }

  /** A checked language without a catalog file is reported missing for
      every msgid the check knows of. */
  lemma MissingCatalogReported(languages: seq<Lang>, files: map<Lang, Catalog>, checkAll: bool, source: Option<Lang>, x: Lang, m: MsgId)
    requires x in languages && x !in files
    requires m in GettextCoverage(languages, files, checkAll, source)
    ensures m in GettextMissing(languages, files, checkAll, source)
    ensures x in GettextMissing(languages, files, checkAll, source)[m]
  {
    assert x !in Covering(languages, files, source, m);
  }

  /** The untranslated entries of the source language count as translated:
      the msgid is checked and the source language is never reported for
      it. */
  lemma SourceUntranslatedCovers(languages: seq<Lang>, files: map<Lang, Catalog>, checkAll: bool, s: Lang, m: MsgId)
    requires s in languages && s in files && m in files[s].untranslated
    ensures m in GettextCoverage(languages, files, checkAll, Some(s))
    ensures m in GettextMissing(languages, files, checkAll, Some(s)) ==> s !in GettextMissing(languages, files, checkAll, Some(s))[m]
  {
    assert m in Entries(files, s) && Registers(files, checkAll, Some(s), s, m);
    assert Covers(files, Some(s), s, m);
  }

  /** Under `check_all`, an untranslated entry of another language makes the
      msgid checked without covering it, so that language is reported. */
  lemma CheckAllReportsUntranslated(languages: seq<Lang>, files: map<Lang, Catalog>, source: Option<Lang>, lang: Lang, m: MsgId)
    requires lang in languages && lang in files && source != Some(lang)
    requires m in files[lang].untranslated && m !in files[lang].translated
    ensures m in GettextMissing(languages, files, true, source)
    ensures lang in GettextMissing(languages, files, true, source)[m]
  {
    assert m in Entries(files, lang) && Registers(files, true, source, lang, m);
    assert m in Keys(languages, files, true, source);
    assert !Covers(files, source, lang, m);
  }

  /** Without `check_all`, the untranslated entries of a language other than
      the source language play no part: replacing them changes nothing. */
  lemma UntranslatedIgnored(languages: seq<Lang>, files: map<Lang, Catalog>, source: Option<Lang>, lang: Lang, other: seq<MsgId>)
    requires lang in files && source != Some(lang)
    ensures GettextCoverage(languages, files[lang := Catalog(files[lang].translated, other)], false, source)
         == GettextCoverage(languages, files, false, source)
  {
    var files' := files[lang := Catalog(files[lang].translated, other)];
    forall m ensures m in Keys(languages, files', false, source) <==> m in Keys(languages, files, false, source) {
      if m in Keys(languages, files', false, source) {
        var l :| l in languages && m in Entries(files', l) && Registers(files', false, source, l, m);
        assert m in Entries(files, l) && Registers(files, false, source, l, m);
      }
      if m in Keys(languages, files, false, source) {
        var l :| l in languages && m in Entries(files, l) && Registers(files, false, source, l, m);
        assert m in Entries(files', l) && Registers(files', false, source, l, m);
      }
    }
    forall m ensures Covering(languages, files', source, m) == Covering(languages, files, source, m) {
      forall l ensures Covers(files', source, l, m) == Covers(files, source, l, m) {
      }
    }
  }

  /** A source language that is not checked (for instance because it is
      excluded) has no effect: no catalog of it is loaded. */
  lemma UncheckedSourceIgnored(languages: seq<Lang>, files: map<Lang, Catalog>, checkAll: bool, s: Lang)
    requires s !in languages
    ensures GettextCoverage(languages, files, checkAll, Some(s)) == GettextCoverage(languages, files, checkAll, None)
  {
    forall m ensures m in Keys(languages, files, checkAll, Some(s)) <==> m in Keys(languages, files, checkAll, None) {
      if m in Keys(languages, files, checkAll, Some(s)) {
        var l :| l in languages && m in Entries(files, l) && Registers(files, checkAll, Some(s), l, m);
        assert Registers(files, checkAll, None, l, m);
      }
      if m in Keys(languages, files, checkAll, None) {
        var l :| l in languages && m in Entries(files, l) && Registers(files, checkAll, None, l, m);
        assert Registers(files, checkAll, Some(s), l, m);
      }
    }
    forall m ensures Covering(languages, files, Some(s), m) == Covering(languages, files, None, m) {
      forall l | l in languages ensures Covers(files, Some(s), l, m) == Covers(files, None, l, m) {
      }
    }
  }

  /** A msgid that the catalog of one checked language registers and the
      catalog of another checked language does not cover is reported for
      that other language. */
  lemma GapReported(languages: seq<Lang>, files: map<Lang, Catalog>, checkAll: bool, source: Option<Lang>,
                    a: Lang, b: Lang, m: MsgId)
    requires a in languages && b in languages
    requires Registers(files, checkAll, source, a, m) && !Covers(files, source, b, m)
    ensures m in GettextMissing(languages, files, checkAll, source)
    ensures b in GettextMissing(languages, files, checkAll, source)[m]
  {
    assert m in Entries(files, a);
    assert m in Keys(languages, files, checkAll, source);
    assert b !in Covering(languages, files, source, m);
  }

  /** Every reported msgid is registered by some checked language and not
      covered by each language reported for it. */
  lemma ReportedIsGap(languages: seq<Lang>, files: map<Lang, Catalog>, checkAll: bool, source: Option<Lang>, m: MsgId, b: Lang)
    requires m in GettextMissing(languages, files, checkAll, source)
    requires b in GettextMissing(languages, files, checkAll, source)[m]
    ensures b in languages && !Covers(files, source, b, m)
    ensures exists a :: a in languages && Registers(files, checkAll, source, a, m)
  {
    var a :| a in languages && m in Entries(files, a) && Registers(files, checkAll, source, a, m);
  }

  /** The gettext check finds a gap exactly when the catalog of some checked
      language registers a msgid that the catalog of some checked language
      does not cover. */
  lemma GettextGapIff(languages: seq<Lang>, files: map<Lang, Catalog>, checkAll: bool, source: Option<Lang>)
    ensures GettextMissing(languages, files, checkAll, source) != map[] <==>
              exists a, b, m :: a in languages && b in languages
                                && Registers(files, checkAll, source, a, m) && !Covers(files, source, b, m)
  {
    var missing := GettextMissing(languages, files, checkAll, source);
    if missing != map[] {
      var m :| m in missing;
      var b :| b in missing[m];
      ReportedIsGap(languages, files, checkAll, source, m, b);
    }
    forall a, b, m | a in languages && b in languages
                     && Registers(files, checkAll, source, a, m) && !Covers(files, source, b, m)
      ensures missing != map[]
    {
      GapReported(languages, files, checkAll, source, a, b, m);
    }
  }
}
