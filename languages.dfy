/** The languages a run checks: the configured `LANGUAGES` setting minus the
    codes given with `--exclude`. */
module Languages {

  /** A language code such as "fi" or "en". */
  type Lang = string

  /** One entry of the `LANGUAGES` setting: a code and its display name. */
  datatype Language = Language(code: Lang, name: string)

  ghost predicate Configured(configured: seq<Language>, code: Lang)
  {
    exists c :: c in configured && c.code == code
  }

  /** The configured codes that are not excluded, in their configured order. */
  function EffectiveLanguages(configured: seq<Language>, exclude: seq<Lang>): (langs: seq<Lang>)
    ensures |langs| <= |configured|
    ensures forall code :: code in langs <==> Configured(configured, code) && code !in exclude
  {
    if configured == [] then []
    else
      var head := if configured[0].code in exclude then [] else [configured[0].code];
      head + EffectiveLanguages(configured[1..], exclude)
  }

  /** Filtering commutes with concatenation: the relative order of the
      configured codes is kept. */
  lemma {:induction false} EffectiveLanguagesAppend(a: seq<Language>, b: seq<Language>, exclude: seq<Lang>)
    ensures EffectiveLanguages(a + b, exclude) == EffectiveLanguages(a, exclude) + EffectiveLanguages(b, exclude)
  {
    if a == [] {
      assert a + b == b;
    } else {
      assert (a + b)[0] == a[0];
      assert (a + b)[1..] == a[1..] + b;
      EffectiveLanguagesAppend(a[1..], b, exclude);
    }
  }

  /** With nothing excluded every configured code is checked, in order. */
  lemma {:induction false} NothingExcluded(configured: seq<Language>)
    ensures |EffectiveLanguages(configured, [])| == |configured|
    ensures forall i :: 0 <= i < |configured| ==> EffectiveLanguages(configured, [])[i] == configured[i].code
  {
    if configured != [] {
      NothingExcluded(configured[1..]);
    }
  }
}
