/** The management command's `handle`: resolve the checked languages, run
    the enabled checkers, and decide the exit status. */
module Command {
  import opened Wrappers
  import opened Languages
  import opened Report
  import Gettext
  import Parler

  /** The parsed command-line options. `noGettext`, `noGettextUpdate` and
      `noParler` are `store_false` options: they are true unless their flag is
      given, and the step they guard runs when they are true. */
  datatype Options = Options(
    exclude: seq<Lang>,
    gettextCheckAll: bool,
    gettextSourceHasLanguage: Option<Lang>,
    noGettext: bool,
    noGettextUpdate: bool,
    noParler: bool)

  /** What one run produces: the checked languages, the locales passed to
      `makemessages` if it was called, the two printed reports, and the exit
      status. */
  datatype Outcome = Outcome(
    languages: seq<Lang>,
    makemessages: Option<seq<Lang>>,
    gettextReport: seq<Row>,
    parlerReport: seq<Row>,
    exitStatus: nat)

  /** Some enabled checker has something to report: a msgid that the
      catalog of one checked language registers and the catalog of another
      does not cover, or a field of a translatable model that has a value in
      one language and none in a checked language. */
  ghost predicate FindsGap(configured: seq<Language>, options: Options, files: map<Lang, Gettext.Catalog>,
                           models: seq<Parler.ModelClass>)
  {
    var langs := EffectiveLanguages(configured, options.exclude);
    var checkAll, source := options.gettextCheckAll, options.gettextSourceHasLanguage;
    || (options.noGettext &&
        exists a, b, m :: a in langs && b in langs
                          && Gettext.Registers(files, checkAll, source, a, m) && !Gettext.Covers(files, source, b, m))
    || (options.noParler &&
        exists j, v, lang :: 0 <= j < |models| && Parler.FieldGap(langs, models[j], v, lang))
  }

  /** `handle`. `files` are the catalog files as the gettext check reads
      them, after `makemessages` when it runs. */
  method Handle(configured: seq<Language>, options: Options, files: map<Lang, Gettext.Catalog>,
                models: seq<Parler.ModelClass>) returns (outcome: Outcome)
    ensures outcome.languages == EffectiveLanguages(configured, options.exclude)
    ensures outcome.makemessages ==
              if options.noGettext && options.noGettextUpdate then Some(outcome.languages) else None
    ensures outcome.gettextReport ==
              if options.noGettext
              then Rows(outcome.languages, Gettext.GettextMissing(outcome.languages, files, options.gettextCheckAll,
                                                                  options.gettextSourceHasLanguage))
              else []
    ensures outcome.parlerReport ==
              if options.noParler then Rows(outcome.languages, Parler.ParlerMissing(outcome.languages, models)) else []
    ensures outcome.exitStatus == 1 <==>
              || (options.noGettext && Gettext.GettextMissing(outcome.languages, files, options.gettextCheckAll,
                                                               options.gettextSourceHasLanguage) != map[])
              || (options.noParler && Parler.ParlerMissing(outcome.languages, models) != map[])
    ensures outcome.exitStatus == if FindsGap(configured, options, files, models) then 1 else 0
  {
    var langs := EffectiveLanguages(configured, options.exclude);
    var makemessages: Option<seq<Lang>> := None;
    var gettextReport: seq<Row> := [];
    var parlerReport: seq<Row> := [];
    var missingTranslations := false;
    if options.noGettext {
      if options.noGettextUpdate {
        makemessages := Some(langs);
      }
      var found;
      found, gettextReport := Gettext.CheckGettext(langs, files, options.gettextCheckAll, options.gettextSourceHasLanguage);
      missingTranslations := missingTranslations || found;
    }
    if options.noParler {
      var found;
      found, parlerReport := Parler.CheckParler(langs, models);
      missingTranslations := missingTranslations || found;
    }
    Gettext.GettextGapIff(langs, files, options.gettextCheckAll, options.gettextSourceHasLanguage);
    Parler.ParlerGapIff(langs, models);
    outcome := Outcome(langs, makemessages, gettextReport, parlerReport, if missingTranslations then 1 else 0);
  }
}
