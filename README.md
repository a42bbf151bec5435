# django-translation-checker: the `check_translations` command, in Dafny

This project models the `check_translations` management command. The command
finds strings that lack a translation in two places: the gettext catalogs
(`django.po` files) and the per-row translations of django-parler models.

The model has these parts:

- `Languages`: the checked languages are the codes of the `LANGUAGES` setting,
  in their configured order, minus the codes given with `--exclude`.
- `Gettext`: the gettext check. Each checked language has at most one catalog.
  A missing catalog file is `None`, and a catalog is modelled as two lists of
  msgids: translated entries and untranslated entries. The check builds a dict
  from each msgid to the languages that cover it. Untranslated entries count
  in two cases:
  - when `--gettext-check-all` is given, they register the msgid without
    covering it;
  - for the language named by `--gettext-source-has-language`, they register
    the msgid and cover it.
- `Parler`: the per-row check. A model is its class name, whether it is a
  `TranslatableModel`, and the translated field values of its rows. Each value
  is (item, language, field, value is truthy). Per model, the check builds a
  dict from the key `<Model: item>.field` to the languages in which that field
  has a value. The per-model missing dicts are merged with `dict.update`.
- `Report`: what both checks share. This covers the dict of missing languages
  (`set(languages) - set(langs)`, keeping only non-empty sets) and the printed
  table. The table has one row per missing key, in `sorted` key order, with one
  column per checked language: the code if that language is missing, two
  spaces if not.
- `StrOrder`: Python's string ordering and `sorted`, as the table uses them.
- `Command`: `handle`. It runs the enabled checkers and exits with status 1
  exactly when one of them found a gap.

The loops that build the dicts in place are methods with loop invariants. The
comprehensions are functions. `CollectTranslations` and `CollectModel` are
proved equal to the declarative coverage definitions `GettextCoverage` and
`ModelCoverage`. `Gettext.LoadPo`, which loads one language's catalog the way
`_load_po` does, is a helper of `RecordCatalog`. `Parler.Key`, which renders the
key `<Model: item>.field`, is a helper of `CollectModel`. `ParlerMissing`
restates the merge loop of the per-row check as a recursive fold, so it is the
invariant of `CheckParler`. Its declarative content is in `ParlerMissingKeys`
(which keys are merged) and `ParlerLastWins` (which set a merged key holds).
The lemmas state the command's promises about these definitions.

Two behaviours of the code are worth stating plainly:

- A missing catalog file contributes no entries at all. Its language is still
  reported as missing for every msgid that another checked language registers
  (`MissingCatalogReported`).
- The untranslated entries of the language named by
  `--gettext-source-has-language` register their msgid and also cover it for
  that language (`SourceUntranslatedCovers`).

The per-row check keys a field by `str(item)`, as the code does. Two rows of one
model whose `str()` is the same therefore share a key, and their languages are
merged. A language that only one of the two rows lacks is then not reported
(`SharedItemMerged`).

## Model

| member | source | states |
|---|---|---|
| `Languages.EffectiveLanguages` | translation_checker/management/commands/check_translations.py:44 | a code is checked iff it is configured and not excluded; never more codes than configured |
| `Languages.EffectiveLanguagesAppend` | translation_checker/management/commands/check_translations.py:44 | filtering commutes with concatenation, so the configured order is kept |
| `Languages.NothingExcluded` | translation_checker/management/commands/check_translations.py:44 | with nothing excluded, the checked codes are exactly the configured codes, position by position |
| `Report.Coverage` | translation_checker/management/commands/check_translations.py:107-108 | the dict read through `set(langs)`: same keys, and a language is in a key's set iff it is in its list |
| `Report.Missing` | translation_checker/management/commands/check_translations.py:107-109 | a key is kept iff some checked language does not cover it; its set is non-empty, within the checked languages, and holds exactly the checked languages that do not cover it |
| `Report.Columns` | translation_checker/management/commands/check_translations.py:113 | one column per checked language, in list order: the code when missing, two spaces otherwise |
| `Report.Rows` | translation_checker/management/commands/check_translations.py:112-114 | one row per missing key, every missing key has a row, keys strictly ascending, columns as `Columns` gives them |
| `StrOrder.Sorted` | translation_checker/management/commands/check_translations.py:114 | `sorted(keys)`: every key of the set exactly once, in strictly ascending Python string order |
| `Gettext.RecordEntries` | translation_checker/management/commands/check_translations.py:99-105 | after `setdefault` over the entries, every entry is a key; `lang` is added to an entry's languages only when appending, and nothing else changes |
| `Gettext.RecordCatalog` | translation_checker/management/commands/check_translations.py:84-105 | one language's catalog, loaded as `_load_po` does (no entries when its file is missing), adds the msgids it registers, and adds the language to exactly the msgids it covers |
| `Gettext.CollectTranslations` | translation_checker/management/commands/check_translations.py:95-105 | the built dict equals `GettextCoverage`: the registered msgids, each with the checked languages covering it |
| `Gettext.CheckGettext` | translation_checker/management/commands/check_translations.py:83-117 | returns True iff `GettextMissing` is non-empty; the printed rows are the report of `GettextMissing` |
| `Gettext.TranslatedEverywhereNotReported` | translation_checker/management/commands/check_translations.py:104-109 | a msgid translated in every checked language is not reported |
| `Gettext.OneGapReported` | translation_checker/management/commands/check_translations.py:104-109 | a msgid translated everywhere except `x`, where it is not covered, is reported with exactly `{x}` |
| `Gettext.MissingCatalogReported` | translation_checker/management/commands/check_translations.py:89-99 | a checked language without a catalog file is reported for every msgid the check registers |
| `Gettext.SourceUntranslatedCovers` | translation_checker/management/commands/check_translations.py:98-101 | an untranslated entry of the source language is registered and never reports the source language |
| `Gettext.CheckAllReportsUntranslated` | translation_checker/management/commands/check_translations.py:98-103 | under `check_all`, an untranslated entry of a non-source language registers the msgid and reports that language |
| `Gettext.UntranslatedIgnored` | translation_checker/management/commands/check_translations.py:98-103 | without `check_all`, replacing a non-source language's untranslated entries changes nothing |
| `Gettext.UncheckedSourceIgnored` | translation_checker/management/commands/check_translations.py:95-100 | a source language that is not checked (for example, excluded) has the same effect as no source language |
| `Gettext.GapReported` | translation_checker/management/commands/check_translations.py:107-109 | a msgid registered by one checked language and not covered by another is reported for that other language |
| `Gettext.ReportedIsGap` | translation_checker/management/commands/check_translations.py:107-109 | every reported language of a reported msgid is checked and does not cover it, and some checked language registers the msgid |
| `Gettext.GettextGapIff` | translation_checker/management/commands/check_translations.py:107-117 | the gettext `missing` dict is non-empty iff some checked language registers a msgid that some checked language does not cover |
| `Parler.CollectModel` | translation_checker/management/commands/check_translations.py:123-133 | the per-model dict equals `ModelCoverage`: keys of the fields with a value, each with the languages in which it has one |
| `Parler.CheckParler` | translation_checker/management/commands/check_translations.py:119-145 | returns True iff the merged `ParlerMissing` is non-empty; the printed rows are its report |
| `Parler.ParlerMissingBounds` | translation_checker/management/commands/check_translations.py:135-137 | every merged entry is a non-empty set of checked languages |
| `Parler.ModelGapReported` | translation_checker/management/commands/check_translations.py:135-137 | a key missing from any translatable model stays in the merged dict |
| `Parler.ReportedFromModel` | translation_checker/management/commands/check_translations.py:135-137 | every merged key is missing from some model |
| `Parler.ParlerMissingKeys` | translation_checker/management/commands/check_translations.py:135-137 | a key is merged iff some model is missing it |
| `Parler.ParlerLastWins` | translation_checker/management/commands/check_translations.py:135-137 | under `update`, a key reports the checked languages without a value in the last translatable model that is missing it |
| `Parler.SharedItemMerged` | translation_checker/management/commands/check_translations.py:124-133 | two rows of a model with the same `str(item)` share a key, and a language in which either has the field filled covers that key |
| `Parler.UnfilledIgnored` | translation_checker/management/commands/check_translations.py:128 | a falsy field value records nothing |
| `Parler.ModelMissingExact` | translation_checker/management/commands/check_translations.py:127-137 | for a field with a value, a checked language is reported iff the field has no value in it |
| `Parler.ParlerGapIff` | translation_checker/management/commands/check_translations.py:119-145 | the per-row check finds a gap iff some translatable model has a field with a value in one language and none in some checked language |
| `Command.Handle` | translation_checker/management/commands/check_translations.py:43-64 | checks the effective languages; calls `makemessages` only when both gettext options allow it; runs each checker only when enabled; exits with 1 iff an enabled checker found a gap, stated both through the checkers' results and declaratively |

## Left out

- Django settings, `apps.get_models()`, `model.objects.all()` and the parler translation API are inputs. They are the `configured`, `files` and `models` parameters.
- polib parsing and the `os.path.isfile` test are out of scope. A catalog is its two lists of msgids, and the locale directory is a map from language to the catalogs that exist.
- `makemessages` is not modelled. `Handle` records the locales it would be called with, and `files` are the catalogs as read after it has run.
- `activate_translation` is out of scope. Its only effect on the result is how `str(item)` renders when a parler key is formatted, for example through a `__str__` that reads a translated field. The model takes that rendering as given in `FieldValue.item`.
- The argparse definitions and `_show_configured_languages` are out of scope. They have no effect on the result, and the options are a plain datatype.
- Terminal styling and `stdout` writes are out of scope. A report is a sequence of (key, columns) rows, not the joined, coloured text.
- Parler keys carry no ANSI escape codes, so their sort order, and which keys coincide, are those without colour (as with `--no-color`). With colour the field is wrapped separately, so an item and field containing `>.` cannot produce the same key as a different split, as they can here.
- `sys.exit` is not modelled. `Handle` returns the exit status it would use.
- `Gettext.RecordEntries`: states the set of languages in each list, not the list order or repeated entries. Only `set(langs)` is read afterwards.
- `Gettext.RecordCatalog`: states sets, not list contents, for the same reason.
- `Gettext.CollectTranslations`: states the dict through `set(langs)`, for the same reason.
- `Parler.CollectModel`: states the dict through `set(langs)`, for the same reason.
- Failures are not modelled. An empty `LOCALE_PATHS` (the `IndexError` at `settings.LOCALE_PATHS[0]`), a malformed catalog rejected by `pofile`, and exceptions from `model()` or the ORM abort the command without a report or exit status. `CheckGettext`, `CheckParler` and `Handle` assume every settings, polib and ORM call returns.
- setup.py is packaging metadata and is not part of this model.
