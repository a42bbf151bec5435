/** The per-row check (`_check_parler_translations`): for every translatable
    model, a dict from (model, item, field) to the languages in which that
    field has a value, merged into one dict of missing languages. */
module Parler {
  import opened Languages
  import opened Report

  /** One translated field of one item in one of its available languages:
      the item as `str(item)` renders it, the language, the field name, and
      whether the field's value is truthy. */
  datatype FieldValue = FieldValue(item: string, lang: Lang, field: string, filled: bool)

  /** A model class: its name, whether it is a `TranslatableModel`, and the
      translated field values of all its rows in the order the nested loops
      over items, languages and fields visit them. */
  datatype ModelClass = ModelClass(name: string, translatable: bool, values: seq<FieldValue>)

  /** The key `'<Model: item>.field'`, without terminal styling. */
  function Key(model: string, v: FieldValue): string
  {
    "<" + model + ": " + v.item + ">." + v.field
  }

  /** The keys of the fields that have a value in some language. */
  ghost function ModelKeys(name: string, values: seq<FieldValue>): set<string>
  {
    set v | v in values && v.filled :: Key(name, v)
  }

  /** The languages in which the field with key `k` has a value. */
  ghost function ModelCovering(name: string, values: seq<FieldValue>, k: string): set<Lang>
  {
    set v | v in values && v.filled && Key(name, v) == k :: v.lang
  }

  /** What the `translations` dict of one model holds once built, read
      through `set(langs)`. */
  ghost function ModelCoverage(model: ModelClass): map<string, set<Lang>>
  {
    map k | k in ModelKeys(model.name, model.values) :: ModelCovering(model.name, model.values, k)
  }

  /** The entries one model contributes to `missing`: the missing keys of a
      translatable model, nothing for another model. */
  ghost function ModelMissing(languages: seq<Lang>, model: ModelClass): map<string, set<Lang>>
  {
    if model.translatable then Missing(languages, ModelCoverage(model)) else map[]
  }

  /** The `missing` dict after the loop over `models`: each translatable
      model's missing keys, merged in with `dict.update`, so that a later
      model's entry replaces an earlier one with the same key. */
  ghost function ParlerMissing(languages: seq<Lang>, models: seq<ModelClass>): map<string, set<Lang>>
  {
    if models == [] then map[]
    else
      ParlerMissing(languages, models[..|models| - 1]) + ModelMissing(languages, models[|models| - 1])
  }

  /** `translations` holds, read through `set(langs)`, the coverage of
      `values`. */
  ghost predicate Collected(translations: map<string, seq<Lang>>, name: string, values: seq<FieldValue>)
  {
    && (forall k :: k in translations <==> k in ModelKeys(name, values))
    && (forall k, l :: k in translations ==> (l in translations[k] <==> l in ModelCovering(name, values, k)))
  }

  /** Visiting one more field value: a filled one appends its language to
      its key, an unfilled one changes nothing. */
  lemma CollectedStep(before: map<string, seq<Lang>>, after: map<string, seq<Lang>>, name: string,
                      values: seq<FieldValue>, v: FieldValue)
    requires Collected(before, name, values)
    requires !v.filled ==> after == before
    requires v.filled ==> after == before[Key(name, v) := (if Key(name, v) in before then before[Key(name, v)] else []) + [v.lang]]
    ensures Collected(after, name, values + [v])
  {
  }

  /** The loop over the rows, languages and fields of one model. */
  method CollectModel(model: ModelClass) returns (translations: map<string, seq<Lang>>)
    ensures Coverage(translations) == ModelCoverage(model)
  {
    translations := map[];
    for i := 0 to |model.values|
      invariant Collected(translations, model.name, model.values[..i])
    {
      var v := model.values[i];
      ghost var before := translations;
      if v.filled {
        var k := Key(model.name, v);
        var langs := if k in translations then translations[k] else [];
        translations := translations[k := langs + [v.lang]];
      }
      CollectedStep(before, translations, model.name, model.values[..i], v);
      assert model.values[..i + 1] == model.values[..i] + [v];
    }
    assert model.values[..|model.values|] == model.values;
    var expected := ModelCoverage(model);
    forall k | k in translations ensures Coverage(translations)[k] == expected[k] {
    }
  }

  /** The per-row check: whether some key is missing, and the rows printed. */
  method CheckParler(languages: seq<Lang>, models: seq<ModelClass>) returns (found: bool, report: seq<Row>)
    ensures found <==> ParlerMissing(languages, models) != map[]
    ensures report == Rows(languages, ParlerMissing(languages, models))
  {
    var missing: map<string, set<Lang>> := map[];
    for i := 0 to |models|
      invariant missing == ParlerMissing(languages, models[..i])
    {
      var model := models[i];
      if model.translatable {
        var translations := CollectModel(model);
        missing := missing + Missing(languages, Coverage(translations));
      }
      assert models[..i + 1][..i] == models[..i];
    }
    assert models[..|models|] == models;
    if missing != map[] {
      report := Rows(languages, missing);
      found := true;
    } else {
      report := [];
      found := false;
    }
  }

  /** Every merged entry names a non-empty set of checked languages. */
  lemma {:induction false} ParlerMissingBounds(languages: seq<Lang>, models: seq<ModelClass>)
    ensures forall k :: k in ParlerMissing(languages, models) ==>
              ParlerMissing(languages, models)[k] != {} && ParlerMissing(languages, models)[k] <= ToSet(languages)
  {
    if models != [] {
      ParlerMissingBounds(languages, models[..|models| - 1]);
    }
  }

  /** A key that a translatable model lacks in some checked language is
      reported: merging never drops a key. */
  lemma {:induction false} ModelGapReported(languages: seq<Lang>, models: seq<ModelClass>, j: nat, k: string)
    requires j < |models| && k in ModelMissing(languages, models[j])
    ensures k in ParlerMissing(languages, models)
  {
    var init := models[..|models| - 1];
    if j < |init| {
      assert init[j] == models[j];
      ModelGapReported(languages, init, j, k);
    }
  }

  /** A reported key comes from some model's missing keys. */
  lemma {:induction false} ReportedFromModel(languages: seq<Lang>, models: seq<ModelClass>, k: string)
    requires k in ParlerMissing(languages, models)
    ensures exists j :: 0 <= j < |models| && k in ModelMissing(languages, models[j])
  {
    var init := models[..|models| - 1];
    if k in ModelMissing(languages, models[|models| - 1]) {
      assert 0 <= |models| - 1 < |models|;
    } else {
      ReportedFromModel(languages, init, k);
      var j :| 0 <= j < |init| && k in ModelMissing(languages, init[j]);
      assert init[j] == models[j];
    }
  }

  /** A key is reported exactly when some translatable model lacks it in
      some checked language. */
  lemma ParlerMissingKeys(languages: seq<Lang>, models: seq<ModelClass>, k: string)
    ensures k in ParlerMissing(languages, models) <==>
              exists j :: 0 <= j < |models| && k in ModelMissing(languages, models[j])
  {
    if k in ParlerMissing(languages, models) {
      ReportedFromModel(languages, models, k);
    }
    forall j | 0 <= j < |models| && k in ModelMissing(languages, models[j])
      ensures k in ParlerMissing(languages, models)
    {
      ModelGapReported(languages, models, j, k);
    }
  }

  /** The reported languages of a key are those of the last translatable
      model that lacks it: exactly the checked languages in which that
      model's field has no value. */
  lemma {:induction false} ParlerLastWins(languages: seq<Lang>, models: seq<ModelClass>, j: nat, k: string)
    requires j < |models| && k in ModelMissing(languages, models[j])
    requires forall i :: j < i < |models| ==> k !in ModelMissing(languages, models[i])
    ensures k in ParlerMissing(languages, models)
    ensures ParlerMissing(languages, models)[k] == ToSet(languages) - ModelCovering(models[j].name, models[j].values, k)
  {
    var init := models[..|models| - 1];
    if j < |models| - 1 {
      forall i | j < i < |init| ensures k !in ModelMissing(languages, init[i]) {
        assert init[i] == models[i];
      }
      assert init[j] == models[j];
      ParlerLastWins(languages, init, j, k);
      assert k !in ModelMissing(languages, models[|models| - 1]);
    }
  }

  /** Two rows of one model that `str()` renders alike share a key: a
      language in which either row has the field filled covers that key, so
      a gap in one row is hidden by the other. */
  lemma SharedItemMerged(model: ModelClass, v: FieldValue, w: FieldValue)
    requires v in model.values && w in model.values && v.filled && w.filled
    requires v.item == w.item && v.field == w.field
    ensures Key(model.name, v) == Key(model.name, w)
    ensures Key(model.name, v) in ModelCoverage(model)
    ensures {v.lang, w.lang} <= ModelCoverage(model)[Key(model.name, v)]
  {
    assert Key(model.name, v) in ModelKeys(model.name, model.values);
  }

  /** A field value that is empty in some language records nothing. */
  lemma UnfilledIgnored(model: ModelClass, v: FieldValue)
    requires !v.filled
    ensures ModelCoverage(ModelClass(model.name, model.translatable, model.values + [v])) == ModelCoverage(model)
  {
    var values' := model.values + [v];
    forall k ensures k in ModelKeys(model.name, values') <==> k in ModelKeys(model.name, model.values) {
      if k in ModelKeys(model.name, values') {
        var w :| w in values' && w.filled && Key(model.name, w) == k;
        assert w in model.values;
      }
      if k in ModelKeys(model.name, model.values) {
        var w :| w in model.values && w.filled && Key(model.name, w) == k;
        assert w in values';
      }
    }
    forall k ensures ModelCovering(model.name, values', k) == ModelCovering(model.name, model.values, k) {
    }
  }

  /** A language in which the field has a value is never reported for the
      field's key by that model, and a checked language in which it has none
      is. */
  lemma ModelMissingExact(languages: seq<Lang>, model: ModelClass, v: FieldValue, lang: Lang)
    requires model.translatable && v in model.values && v.filled && lang in languages
    ensures var k := Key(model.name, v);
            (k in ModelMissing(languages, model) && lang in ModelMissing(languages, model)[k])
              <==> !(exists w :: w in model.values && w.filled && Key(model.name, w) == k && w.lang == lang)
  {
    var k := Key(model.name, v);
    assert k in ModelKeys(model.name, model.values);
    if exists w :: w in model.values && w.filled && Key(model.name, w) == k && w.lang == lang {
      var w :| w in model.values && w.filled && Key(model.name, w) == k && w.lang == lang;
      assert lang in ModelCovering(model.name, model.values, k);
    }
  }

  /** A model lacks a key in a checked language exactly when the field has
      a value in some language but none in that one. */
  ghost predicate FieldGap(languages: seq<Lang>, model: ModelClass, v: FieldValue, lang: Lang)
  {
    model.translatable && v in model.values && v.filled && lang in languages
    && lang !in ModelCovering(model.name, model.values, Key(model.name, v))
  }

  /** A field gap makes its key one of the model's missing keys. */
  lemma FieldGapMissing(languages: seq<Lang>, model: ModelClass, v: FieldValue, lang: Lang)
    requires FieldGap(languages, model, v, lang)
    ensures Key(model.name, v) in ModelMissing(languages, model)
  {
    assert Key(model.name, v) in ModelKeys(model.name, model.values);
  }

  /** Every missing key of a model comes from a field gap. */
  lemma MissingFieldGap(languages: seq<Lang>, model: ModelClass, k: string)
    requires k in ModelMissing(languages, model)
    ensures exists v, lang :: FieldGap(languages, model, v, lang)
  {
    var v :| v in model.values && v.filled && Key(model.name, v) == k;
    var lang :| lang in ModelMissing(languages, model)[k];
    assert FieldGap(languages, model, v, lang);
  }

  /** The per-row check finds a gap exactly when some translatable model has
      a field with a value in some language and without one in some checked
      language. */
  lemma ParlerGapIff(languages: seq<Lang>, models: seq<ModelClass>)
    ensures ParlerMissing(languages, models) != map[] <==>
              exists j, v, lang :: 0 <= j < |models| && FieldGap(languages, models[j], v, lang)
  {
    var missing := ParlerMissing(languages, models);
    if missing != map[] {
      var k :| k in missing;
      ReportedFromModel(languages, models, k);
      var j :| 0 <= j < |models| && k in ModelMissing(languages, models[j]);
      MissingFieldGap(languages, models[j], k);
    }
    forall j, v, lang | 0 <= j < |models| && FieldGap(languages, models[j], v, lang)
      ensures missing != map[]
    {
      FieldGapMissing(languages, models[j], v, lang);
      ModelGapReported(languages, models, j, Key(models[j].name, v));
    }
  }
}
