# Vlang i18n toolchain — a Dafny model

Vlang translates Vue.js applications. A component declares its messages in
a `<messages>` block, or in a `.vlg` file beside it. A message is either a
static string or a *range map*: an object whose keys are ranges such as
`"1"`, `"2,"`, `",!0"` and whose values are the texts to use when the count
falls in the range.

This project models the core of the toolchain:

- **The runtime** (`runtime/runtime.js`). It covers:
  - locale selection: the chosen, server-side and cookie suggestions, each
    sanitized against the enabled locales;
  - `translate`, with its string-to-number coercion of the count and its
    four "wrong shape" messages;
  - the pluralization rule `isInRange`, with `!` for an open bound;
  - `pluralize`, which takes the first range that matches or else the last
    text.
- **The legacy runtime** (`lib/vlang.js`). It covers:
  - locale scoring by language and country;
  - `chooseLocale`, which keeps the first best-scoring block;
  - `findEntry`, with its debug and non-debug fallbacks;
  - the strict typing of `translate`;
  - the older `isInRange`, which has no `!`.
- **The build-time dictionary** (`lib/extract.js`, `lib/dict.js`). It covers:
  - `extractFile`, which turns the blocks of one component into global-key
    lines `{original}`;
  - `dictFromFiles`, where a later file wins;
  - `newLinesToSync`: the lines missing from the external dictionary,
    copied into every configured language;
  - `filterMessage`: trim, then the language's filters, with an unknown
    filter as an error;
  - `sortDictByFile`, which regroups lines per `.vlg` path, language and
    key and drops empty translations;
  - `generateFileContent`'s block list;
  - `componentPath`.
- **The filters** (`lib/filters.js`): the three French punctuation
  rules, applied in order as non-overlapping global replacements.
- **The helpers** (`lib/utils.js`): `deepSet`, `vlangPath` and
  `mergeTranslations`.
- **The Google Sheets glue** (`lib/google.js`):
  - A1 column names and coordinates;
  - the sheets to create;
  - the rows missing from a sheet, and their conversion to cells. As written,
    the conversion reads a fifth cell that the four-cell rows of
    `flattenTrans` lack, so patching a sheet that misses a row throws;
  - a grid read back as header-keyed row objects.
- **The two command-line tools** (`bin/extract.js`, `bin/import.js`):
  - `parseFiles` fills every locale with every key of a component;
  - `flattenTrans` builds the sheet rows;
  - the import groups sheet rows by component, locale, key and range;
  - the import collapses `""` ranges to static strings;
  - the blocks are sorted by locale.

JavaScript objects are modelled as ordered association lists
(`OrderedDict.ODict`), because the tools depend on `Object.keys` order: a
new key is appended and an existing key keeps its place. A thrown error is
the `Err` case of a `Result`, carrying the message the engine would raise.
Loops in the source are methods with loop invariants, except the loop of
`deepSet`, which is a recursive function on values (see Left out). A loop that computes
a value is proved equal to a recursive specification function. A loop that
fills an object is specified key by key, and its key order is given by a
function that lists the keys in the order they are first assigned
(`OrderedDict.AddKeys`). The properties are lemmas about these functions.

## Model

| member | source | states |
|---|---|---|
| Runtime.Sanitize | runtime/runtime.js:77-83 | a suggestion survives exactly when it is one of the enabled locales, and is then returned unchanged |
| Runtime.ActiveLocaleSpec | runtime/runtime.js:39-66 | the active locale is the first usable suggestion in the order chosen, server-side, cookie; when none is usable it is the first enabled locale |
| Runtime.ActiveLocaleEnabled | runtime/runtime.js:39-54 | the active locale is always an enabled locale, and it is undefined only when no locale is enabled |
| Runtime.UnknownChoiceIgnored | runtime/runtime.js:60-66 | choosing a locale that is not enabled selects the same locale as choosing none |
| Runtime.Vlang.constructor | runtime/runtime.js:100-106 | a new instance holds the given locales and suggestions and has no chosen locale |
| Runtime.Vlang.GetLocale | runtime/runtime.js:253-255 | returns the active locale; it is enabled, and it is absent only when the locale list is empty |
| Runtime.Vlang.SetLocale | runtime/runtime.js:260-262 | records the choice and changes nothing else; an enabled choice becomes the locale; an unusable one leaves the fallback order in charge |
| Runtime.Vlang.MapPart | runtime/runtime.js:193-218 | one range part: empty is -inf (first part) or +inf (later part); a leading `!` marks the bound open; else the integer prefix after the mark |
| Runtime.Vlang.IsInRange | runtime/runtime.js:181-229 | the loop over the parts decides exactly the range semantics `InRange` that the lemmas below describe |
| Runtime.Vlang.MapAllParts | runtime/runtime.js:193-217 | every part becomes its bound, and the lower and upper operators turn strict exactly as the callback's assignments leave them: the first part's `!`, and the `!` of the last non-empty later part |
| Runtime.TwoBounds | runtime/runtime.js:220-228 | `"a,b"` holds for n when a ≤ n ≤ b, with each side strict when its part carries `!` |
| Runtime.OpenAbove | runtime/runtime.js:194-199 | `"a,"` has no upper bound: it holds when a ≤ n, or a < n with `!` |
| Runtime.OpenBelow | runtime/runtime.js:194-199 | `",b"` has no lower bound: it holds when n ≤ b, or n < b with `!` |
| Runtime.SingleValue | runtime/runtime.js:224-228 | a single part `"v"` holds only for n = v; `"!v"` holds for no n, since the copied upper bound stays inclusive |
| Runtime.TooManyParts | runtime/runtime.js:220-222 | a range with three or more parts never holds |
| Runtime.NotANumber | runtime/runtime.js:217-222 | a part that does not start with an integer makes the range fail for every n |
| Runtime.EmptyParts | runtime/runtime.js:193-200 | `","` holds for every n; the empty range holds for none |
| Runtime.NumberPart | runtime/runtime.js:204-217 | an integer part, with or without `!`, stands for its value on either side |
| Runtime.FirstMatchFrom | runtime/runtime.js:242-245 | the first range at or after a position that holds for n, or none when no later range holds |
| Runtime.Vlang.Pluralize | runtime/runtime.js:239-248 | the loop computes the specified pluralization: the first matching text, then `{}` replaced by n |
| Runtime.PluralizedFirst | runtime/runtime.js:242-245 | when range i is the first that holds, its text is selected |
| Runtime.PluralizedLast | runtime/runtime.js:242-245 | when no range holds, the last text is selected |
| Runtime.PluralizedEmpty | runtime/runtime.js:240 | an empty range map gives the "no pluralized options" message |
| Runtime.NoPlaceholder | runtime/runtime.js:247 | a text without `{` is left as it is by the placeholder substitution |
| Runtime.Coerce | runtime/runtime.js:136-142 | a string count becomes a number exactly when it starts with a number; other counts are kept |
| Runtime.TranslateMissing | runtime/runtime.js:144-145 | an absent or empty message gives the missing-key text, whatever the count |
| Runtime.TranslateShapes | runtime/runtime.js:146-163 | a number count needs a range map and pluralizes it; otherwise a static string is returned; each mismatch gives its own message |
| Runtime.TranslateStringCount | runtime/runtime.js:136-142 | a numeric string count translates like the number; any other string translates like no count |
| Runtime.Vlang.Translate | runtime/runtime.js:132-165 | the result is the specified translation of the key for the active locale |
| LegacyVlang.FirstSeparator | lib/vlang.js:169 | the first `_` or `-` at or after a position, or none |
| LegacyVlang.SplitLocaleSpec | lib/vlang.js:168-174 | neither the language nor the country contains a separator, and there is no country exactly when the language is the whole lower-cased locale |
| LegacyVlang.CompareLocales | lib/vlang.js:179-200 | a locale match scores 0, 1 or 2 |
| LegacyVlang.CompareSymmetric | lib/vlang.js:179-200 | the score does not depend on argument order |
| LegacyVlang.CompareCases | lib/vlang.js:182-197 | with a falsy side, 2 means identical and 1 never occurs; otherwise 2 means same language and country, 1 same language only, 0 different languages |
| LegacyVlang.CompareCaseInsensitive | lib/vlang.js:169 | case does not affect the score |
| LegacyVlang.CompareSecondPieceOnly | lib/vlang.js:169 | only the first two pieces count: `en-US-x` and `en_us` match fully |
| Messages.ListLocales | lib/vlang.js:159-163 | the locales of the blocks, in order |
| LegacyVlang.Scores | lib/vlang.js:143-151 | one score per candidate locale, in order |
| LegacyVlang.FirstBestUnique | lib/vlang.js:143-151 | the first best-scoring locale is unique |
| LegacyVlang.FirstMaxUnique | lib/vlang.js:147-150 | the first maximal score is at a unique position |
| LegacyVlang.NoMatchChoosesFirst | lib/vlang.js:137 | when no candidate scores above 0, the first locale is chosen |
| LegacyVlang.Vlang.constructor | lib/vlang.js:6-9 | a new instance has no locale and debug mode on |
| LegacyVlang.Vlang.ChooseLocale | lib/vlang.js:135-154 | the result is the first best-scoring block locale; it is undefined only when there are no blocks |
| LegacyVlang.FirstMaxIndex | lib/vlang.js:143-151 | the scan keeps the first index whose score is the highest; later equal scores do not replace it |
| LegacyVlang.FindLocale | lib/vlang.js:21-27 | the first block with the chosen locale, or none |
| LegacyVlang.BlockIndex | lib/vlang.js:20-28 | the loop leaves some block in `lm` exactly when there are blocks |
| LegacyVlang.EntryInSpec | lib/vlang.js:14-42 | for a chosen block locale, the entry comes from the first block of that locale when it has the key, even with an empty value, and is the missing-key entry otherwise |
| LegacyVlang.MissingTexts | lib/vlang.js:33-39 | the missing-key entry is `!!! MISSING (key) !!!` in debug mode and the bare key otherwise |
| LegacyVlang.Vlang.FindEntry | lib/vlang.js:14-42 | the entry looked up in the blocks for the locale `chooseLocale` picks |
| LegacyVlang.Translation | lib/vlang.js:57-73 | a number count with a range map pluralizes; no count with a string returns it; each shape mismatch gives the wrong-format message for the expected form |
| LegacyVlang.MissingWithCount | lib/vlang.js:30-73 | a key that no block has, asked with a count, gives the wrong-format message, because the fallback is a string |
| LegacyVlang.Vlang.Translate | lib/vlang.js:57-73 | the result is the specified translation of the found entry |
| LegacyVlang.Vlang.IsInRange | lib/vlang.js:88-110 | the loop over the parts decides exactly the legacy range semantics |
| LegacyVlang.AgreesWithRuntime | lib/vlang.js:88-110 | on ranges without `!`, the legacy rule and the runtime rule agree |
| LegacyVlang.SameBoundOne | lib/vlang.js:105-107 | both rules read a one-part range the same way |
| LegacyVlang.SameBoundTwo | lib/vlang.js:89-99 | both rules read a two-part range without `!` the same way |
| LegacyVlang.MarkedIsNaN | lib/vlang.js:98-103 | to the legacy rule a part starting with `!` is not a number, so every range containing it fails |
| LegacyVlang.FirstMatchFrom | lib/vlang.js:124-127 | the first range at or after a position that holds for n under the legacy rule |
| LegacyVlang.Vlang.Pluralize | lib/vlang.js:120-130 | the loop computes the specified legacy pluralization |
| LegacyVlang.PluralizedFirst | lib/vlang.js:124-127 | the first matching range's text is selected |
| LegacyVlang.PluralizedLast | lib/vlang.js:124-127 | with no match, the last text is selected |
| LegacyVlang.PluralizedEmpty | lib/vlang.js:122 | an empty range map gives the "no pluralized options" message |
| Utils.FollowEmptyNode | lib/utils.js:38-59 | nothing can be reached below an empty object |
| Utils.DeepSetDefined | lib/utils.js:48-57 | `deepSet` succeeds exactly when no strict prefix of the path reaches a non-object value |
| Utils.DeepSetReaches | lib/utils.js:53-54 | after `deepSet`, the path leads to the value |
| Utils.DeepSetElsewhere | lib/utils.js:48-57 | every path that diverges from the written one reads as before |
| Utils.DeepSetAlong | lib/utils.js:48-52 | an object on the path stays an object and keeps its keys, in order, plus at most the next key appended |
| Utils.DeepSetShaped | lib/utils.js:38-59 | on a tree of uniform depth equal to the path's length, `deepSet` always succeeds and keeps that shape |
| Utils.VlangPathCases | lib/utils.js:90-93 | a trailing `.vue` or `.js` is replaced by `.vlg`; any other name gets `.vlg` appended |
| Utils.VlangPathExamples | lib/utils.js:91 | only one trailing extension is stripped, and the match is case-sensitive |
| Utils.FirstLocalesSpec | lib/utils.js:99-116 | the merged locales are distinct, are exactly those of the blocks, and start with the very first block's locale |
| Utils.CollectSpec | lib/utils.js:105-110 | a merged key is present exactly when some block of that locale has it, and holds the value of the last such block |
| Utils.CollectAbsent | lib/utils.js:105-115 | a locale no block has collects nothing |
| Utils.MergeBlock | lib/utils.js:102-116 | one block merged into the output keeps the partial-merge invariant |
| Utils.MergeList | lib/utils.js:102-116 | merging one list of the stack block by block keeps the partial-merge invariant over everything merged so far |
| Utils.MergeTranslations | lib/utils.js:98-120 | one block per locale, in order of first appearance, headed by the first block; each holds the merged messages of that locale across the whole stack |
| Dict.Assign | lib/dict.js:20 | `Object.assign(out, part)` reads every key of the part from the part and every other key as before; keys stay distinct, existing keys keep their place and new keys are appended in the part's order |
| Dict.DictFromFiles | lib/dict.js:16-24 | fails, as iterating `undefined` does, exactly when some file has neither extension; otherwise each key reads as in the last file that defines it, and the keys come file after file in the order they were first defined |
| Dict.MergedKeysSpec | lib/dict.js:16-24 | the merged keys are distinct and are exactly the keys some file defines |
| Dict.LaterFileWins | lib/dict.js:19-21 | a key defined by file i and by no later file reads as in file i |
| Dict.ComponentPathCases | lib/dict.js:127-129 | one trailing `.vue` or `.js`, in any case, is replaced by `.vlg` under the i18n root |
| Dict.ComponentPathCollides | lib/dict.js:128 | `x.vue` and `x.js` map to the same `.vlg` path |
| Dict.FilterMessage | lib/dict.js:142-155 | the loop applies the specified filtering |
| Dict.FilteredWithoutFilters | lib/dict.js:143-144 | with no filters, a string is trimmed and `undefined` becomes the empty string |
| Dict.ApplyFiltersErrors | lib/dict.js:146-152 | filtering fails exactly when a listed filter is unknown; the error names the first unknown one |
| Dict.ApplyFiltersSpacesOnly | lib/dict.js:151 | the filters keep a text's length and change spaces only |
| Dict.FilteredIsTrimmed | lib/dict.js:142-155 | a filtered message never starts or ends with white space |
| Dict.FilteredEmpty | lib/dict.js:143 | `undefined` and the empty string filter alike, to the empty string |
| Dict.RangeTranslations | lib/dict.js:182-183 | one `text.translation` per entry of the range map, in order |
| Dict.FilteredAll | lib/dict.js:183 | one filtering result per range, in order |
| Dict.FilterRanges | lib/dict.js:182-187 | the loop computes the specified kept ranges |
| Dict.SelectSpec | lib/dict.js:182-191 | succeeds exactly when every range filters; keeps exactly the ranges whose filtered text is non-empty, each with that text |
| Dict.SelectStopsAt | lib/dict.js:183 | the first range whose filter fails makes the whole message fail with that error |
| Dict.RealMessageOf | lib/dict.js:177-192 | computes the specified real message of one line |
| Dict.NothingEmptyKept | lib/dict.js:184-194 | a kept message is truthy, and a kept range map is non-empty with only non-empty texts |
| Dict.UntranslatedDropped | lib/dict.js:177-178 | a static line without a translation is dropped |
| Dict.StoreLookup | lib/dict.js:195-203 | storing under file, language and key changes that one entry and no other |
| Dict.StoreWellFormed | lib/dict.js:195-203 | storing keeps every level of the per-file dictionary free of duplicate keys |
| Dict.FirstFailure | lib/dict.js:172-205 | the first line whose real message is an error, or none |
| Dict.FirstFailureStable | lib/dict.js:172-205 | once a line has failed, later lines do not change which failure is reported |
| Dict.SortLine | lib/dict.js:173-204 | one line fails exactly when its real message fails; otherwise it stores that message where the specification says |
| Dict.SortDictByFile | lib/dict.js:169-208 | fails with the first failing line's error; otherwise each file, language and key holds the message of the last line that lands there with a kept message; files, the languages of a file and the keys of a language come in the order a kept line first reached them |
| Dict.KeptKeysSpec | lib/dict.js:194-204 | a language of a file lists exactly the keys some kept line lands at |
| Dict.LastKeptWins | lib/dict.js:194-204 | the last kept line for a location determines what it holds |
| Dict.KeptComesFromLine | lib/dict.js:194-204 | everything stored comes from some line that lands there |
| Dict.FileBlocks | lib/dict.js:219-223 | one `{lang, messages}` block per language of the file, in order |
| Dict.FirstWith | lib/dict.js:71-86 | the first internal line of a component and key, or none |
| Dict.DeriveLanguages | lib/dict.js:76-86 | the line is copied into each listed language that neither the output nor the external dictionary has |
| Dict.NewLinesToSync | lib/dict.js:68-90 | keys stay distinct, and every key reads as the specification of lines to push says |
| Dict.ToSyncOwnLines | lib/dict.js:72-74 | an external key is never pushed; an internal key the external side lacks is pushed with its own message |
| Dict.ToSyncCovers | lib/dict.js:76-86 | each internal line in each language ends up external or pushed; a derived line carries the message of the first internal line with that component and key, which is at or before it |
| Filters.SpaceBeforeRule | lib/filters.js:2-3 | the punctuation rules keep the text's length |
| Filters.SpaceBeforeChanges | lib/filters.js:2-3 | a rule replaces only a space that follows a non-space and precedes one of its marks |
| Filters.SpaceBeforeApplies | lib/filters.js:2-3 | a space between a non-space, non-mark character and a mark is replaced |
| Filters.NonOverlapping | lib/filters.js:2 | matches do not overlap: in `a ! ?` the second space stays |
| Filters.CloseFrom | lib/filters.js:4 | the first `»` at or after a position |
| Filters.GuillemetsEnd | lib/filters.js:4 | a guillemets match starts with `« `, holds no `»`, and ends at the first ` »` |
| Filters.GuillemetsRule | lib/filters.js:4 | the guillemets rule keeps the text's length |
| Filters.GuillemetsChanges | lib/filters.js:4 | the guillemets rule only turns spaces into no-break spaces |
| Filters.GuillemetsPrefix | lib/filters.js:4 | text before the first `«` is left as it is |
| Filters.GuillemetsMatch | lib/filters.js:4 | `« x »` becomes `«`, no-break space, `x`, no-break space, `»` |
| Filters.GuillemetsEndAt | lib/filters.js:4 | a `« x »` at the start of the text, with no `»` inside, is where the pattern's match ends |
| Filters.GuillemetsAt | lib/filters.js:4 | the first `« x »` of a text, with no `«` before it, gets both inner spaces turned into no-break spaces |
| Filters.FrenchPunctuation | lib/filters.js:15-27 | a non-string is returned unchanged; a string gets the three rules in order |
| Filters.RulesInOrder | lib/filters.js:22-24 | the loop over the rule list is the three rules applied in order |
| Filters.FrenchChanges | lib/filters.js:1-5 | the result has the text's length, and only spaces change, to a narrow or ordinary no-break space |
| Filters.FrenchWithoutSpace | lib/filters.js:1-5 | a text without a space is left as it is |
| Filters.FrenchBeforeExclamation | lib/filters.js:2 | a space before `;`, `!` or `?` after a non-space becomes a narrow no-break space |
| Filters.FrenchBeforeColon | lib/filters.js:3 | a space before `:` after a non-space becomes a no-break space |
| Filters.SpaceRulesOnlySpaces | lib/filters.js:2-3 | the two space rules change spaces only |
| Filters.SpaceKept | lib/filters.js:2-3 | a space not followed by a mark survives both space rules |
| Filters.GuillemetsSurvive | lib/filters.js:2-4 | the spaces inside guillemets reach the third rule intact |
| Filters.FrenchGuillemets | lib/filters.js:15-27 | both inner spaces of `« x »` become no-break spaces |
| Extract.WrapRanges | lib/extract.js:107-113 | each range text becomes `{original: text}`, in order |
| Extract.ExtractBlock | lib/extract.js:101-115 | the block's keys are written under their global keys and every other global key is untouched; new global keys are appended in message order |
| Extract.ExtractFile | lib/extract.js:88-119 | throws for an unknown extension; yields nothing for unparsable or invalid content; otherwise each global key reads as the last block of that language defines it, and the keys come block after block in first-definition order |
| Extract.FileKeysSpec | lib/extract.js:97-118 | the file's keys are distinct and are exactly the global keys of its blocks' messages |
| Extract.SourceSpec | lib/extract.js:100-116 | a language and key read as the last block of that language that has the key, and are absent when none has it |
| Extract.LastBlockWins | lib/extract.js:100-116 | the last block with a key decides the line: a string wraps as `{original}`, a range map as its wrapped ranges |
| ExtractCli.SelectSources | bin/extract.js:209-217 | kept paths are distinct, come in the order a kept file first had them, and each reads as the last parsed file with that relative path |
| ExtractCli.SourceOfSpec | bin/extract.js:214-215 | a path is kept exactly when some parsed file has it, and a path starting with `.` never is |
| ExtractCli.CacheBlock | bin/extract.js:225-236 | one block adds its keys, new ones appended in message order, and its messages under its locale, and changes nothing else |
| ExtractCli.FileCache | bin/extract.js:221-237 | the keys are every key of the file's blocks and the locales every block locale, each once in first-occurrence order; the cache holds the last message per locale and key |
| ExtractCli.AllKeysSpec | bin/extract.js:228-229 | a key is collected exactly when some block has it |
| ExtractCli.BlockLocalesSpec | bin/extract.js:226 | a locale is collected exactly when some block has it |
| ExtractCli.CacheValueSpec | bin/extract.js:231-235 | a cached message is that of the last block of the locale that has the key, and is absent when none has it |
| ExtractCli.FillValue | bin/extract.js:245 | the fill value is the cached message when that is truthy, else `''` |
| ExtractCli.FillLocale | bin/extract.js:244-247 | writes every key of the file for one locale and nothing else; the locale, the file and the keys are appended where new, keys in the given order |
| ExtractCli.FillFile | bin/extract.js:219-248 | a file's entries are exactly its keys in each of its and the configured locales, each with its filled value; locales come in `LocaleOrder` and keys in `KeyOrder` |
| ExtractCli.AddLocales | bin/extract.js:239-241 | the locales afterwards are the file's own locales followed by the configured ones it lacks, in configuration order |
| ExtractCli.FillLocales | bin/extract.js:243-248 | for the given file, each listed locale and key gets its filled cached value and every other entry reads as before; new locales are appended in list order and the file's keys in key order |
| ExtractCli.FilledOrderAppend | bin/extract.js:243-248 | filling for one list of locales and then another gives the order of filling for both lists at once |
| ExtractCli.ParseFiles | bin/extract.js:208-249 | every locale, file and key reads as the specified filled dictionary; the result is an object at every level, so it can be flattened; locales come in first-use order, each locale's files in kept-path order, each file's keys in `KeyOrder` |
| ExtractCli.FilesWithSpec | bin/extract.js:219-248 | a locale lists exactly the kept files written under it, each once |
| ExtractCli.Completed | bin/extract.js:239-248 | a kept file has an entry for a locale and key exactly when the locale is configured or used by the file and some block has the key; the entry is the cached truthy message or `''` |
| ExtractCli.DotFilesLeftOut | bin/extract.js:214 | files whose relative path starts with `.` get no entries |
| ExtractCli.RowsOf | bin/extract.js:127-134 | one row per key of the file, in order |
| ExtractCli.FlattenFile | bin/extract.js:127-134 | computes the specified rows of one file, or the error of reading a missing source-locale file |
| ExtractCli.FlattenLocale | bin/extract.js:124-135 | computes the specified rows of one locale, or the first file's error |
| ExtractCli.FlattenTrans | bin/extract.js:117-139 | computes the specified sheets, or the first error; the sheets come in the locale order of `trans` |
| ExtractCli.FlattenedStops | bin/extract.js:120-135 | the first locale that fails decides the error |
| ExtractCli.FileRowsSpec | bin/extract.js:128-133 | each row carries the file name, the key and the file's message, in key order |
| ExtractCli.LocaleRowsCount | bin/extract.js:124-135 | a sheet has exactly one row per file and key |
| ExtractCli.LocaleRowsFrom | bin/extract.js:124-135 | every row comes from some key of some file |
| ExtractCli.LocaleRowsCover | bin/extract.js:124-135 | every key of every file has a row |
| ExtractCli.LocaleRowsOk | bin/extract.js:131 | a sheet fails exactly when a non-empty file is missing from the source locale |
| ExtractCli.SourceColumnsEqual | bin/extract.js:131-132 | on the source locale's own sheet, the source column equals the translation column |
| ExtractCli.OwnRows | bin/extract.js:128-133 | rows of files taken from the source locale itself repeat their translation as source |
| Google.IndexToA1Column | lib/google.js:15-26 | the loop computes the specified A1 column name |
| Google.A1Column | lib/google.js:15-26 | column names are upper-case letters, and empty exactly for indices ≤ 0 |
| Google.A1RoundTrip | lib/google.js:19-23 | reading a positive index's column name back as bijective base 26 gives the index |
| Google.A1ColumnInjective | lib/google.js:15-26 | distinct positive indices have distinct column names |
| Google.A1Onto | lib/google.js:15-26 | every non-empty letter string is the name of exactly one positive index |
| Google.A1Examples | lib/google.js:15-26 | 1 is `A`, 26 `Z`, 27 `AA`, 52 `AZ`; 0 and negative indices give the empty name |
| Google.LetterPrefix | lib/google.js:31-33 | the longest leading run of letters of a string |
| Google.GridCoordsRoundTrip | lib/google.js:31-33 | an A1 coordinate splits back into its column and row |
| Google.NamesSet | lib/google.js:157-161 | the set holds exactly the existing sheet titles |
| Google.SheetsToCreate | lib/google.js:163-169 | computes the specified creation requests |
| Google.MissingSpec | lib/google.js:163-169 | a request is made for a wanted name exactly when no sheet has that title, with the new-sheet size |
| Google.InsertMissingKeys | lib/google.js:402-441 | converts each missing row with `rowToValues` and stops at the first throw; since `flattenTrans` rows have four cells, it fails reading `length` exactly when some row is missing (with fewer than two sheet rows: when there is any row); no `values` throws |
| Google.RowToValuesSpec | lib/google.js:345-391 | `rowToValues` throws exactly when one of the first five cells is `undefined`; otherwise the five cells in column order, the last two wrapping |
| Google.CellsUpToSpec | lib/google.js:384-391 | the first `n` cells convert exactly when none is `undefined`, and then hold the row's values in order |
| Google.RowOfFlattenThrows | lib/google.js:384-391 | a four-cell row as `flattenTrans` builds it always throws on its fifth cell |
| Google.AppendedStops | lib/google.js:430-441 | after a throwing row, later rows do not change the outcome |
| Google.AppendedThrows | lib/google.js:430-441 | nothing is appended when no row is missing, and the first missing row throws |
| Google.MissingRows | lib/google.js:430-441 | at most the given rows, in order |
| Google.MissingRowsSpec | lib/google.js:433-440 | a row is pushed exactly when it is given and its file and key are not present |
| Google.MissingRowsNone | lib/google.js:403-405 | with nothing present, every row is pushed |
| Google.RowToObject | lib/google.js:599-606 | distinct keys; each header reads the cell of its last column; with distinct headers, the headers in order |
| Google.HeadValueDistinct | lib/google.js:602-604 | with distinct headers, each header reads the cell of its own column |
| Google.ImportRows | lib/google.js:593-607 | one object per row after the header; with distinct headers, each object's keys are the headers in order; a missing grid throws reading `values[0]` |
| ImportCli.GroupRows | bin/import.js:47-59 | the loop over a sheet's rows computes the specified grouping |
| ImportCli.GroupAll | bin/import.js:44-60 | the loop over all sheets computes the specified grouping |
| ImportCli.GroupSheetStops | bin/import.js:47-50 | once a row throws, later rows of a sheet do not matter |
| ImportCli.GroupSheetError | bin/import.js:48-50 | a sheet fails exactly when a row has a translation and a key but no component, and the error is reading `match` of `undefined` |
| ImportCli.GroupDataError | bin/import.js:44-60 | the import fails exactly when some sheet has such a row, with that error |
| ImportCli.SetRowContent | bin/import.js:53-57 | `deepSet` of a row writes that one range only, and creates the component, locale and key it names |
| ImportCli.GroupSheetContent | bin/import.js:47-59 | after a sheet, a range holds the last kept row's translation for it; keys, locales and components exist exactly when some kept row names them |
| ImportCli.GroupDataContent | bin/import.js:44-60 | a range holds the last translation its locale's sheet gives it; key, locale and component presence each match a kept row that names them |
| ImportCli.GroupDataWellFormed | bin/import.js:44-60 | the grouped data has distinct keys at every level |
| ImportCli.CollapseEntry | bin/import.js:71-73 | a key with a `""` range becomes that static text; any other key stays a range map |
| ImportCli.CollapsedGet | bin/import.js:70-74 | collapsing keeps the keys and collapses each key's ranges |
| ImportCli.CollapseMessages | bin/import.js:70-74 | the in-place loop leaves the collapsed messages |
| ImportCli.ComponentBlocks | bin/import.js:67-80 | one block per locale of the component, each with its collapsed messages |
| ImportCli.BuildOutput | bin/import.js:62-83 | the output holds the specified blocks for every component |
| ImportCli.OutputGet | bin/import.js:64-65 | a component has blocks exactly when it was grouped |
| ImportCli.GoogleContent | bin/import.js:42-83 | fails exactly when grouping fails, with that error; otherwise the specified output |
| ImportCli.BlocksOfSpec | bin/import.js:67-80 | block locales are distinct, are exactly the grouped locales, and each block holds its locale's collapsed messages |
| ImportCli.ImportedBlocks | bin/import.js:44-83 | a component has output exactly when some sheet has a kept row for it; it gets one block per such sheet, with distinct locales |
| ImportCli.ImportedMessage | bin/import.js:44-83 | a message exists exactly when a kept row names it; with a `""` range it is that range's last translation; otherwise each range holds its last translation |
| ImportCli.LexTrichotomy | bin/import.js:114-116 | string `<` is total and asymmetric |
| ImportCli.LexTransitive | bin/import.js:114 | string `<` is transitive |
| ImportCli.LexIrreflexive | bin/import.js:114 | no string is below itself |
| ImportCli.LexPrefix | bin/import.js:114 | a proper prefix is below the longer string |
| ImportCli.CompareSpec | bin/import.js:113-121 | the comparator is 0 exactly on equal locales and negative exactly when the first is below; it is antisymmetric and transitive |
| ImportCli.InsertBlock | bin/import.js:113-121 | inserting into a sorted list keeps it sorted and adds exactly that block |
| ImportCli.SortBlocks | bin/import.js:113-121 | the result is sorted by locale and a permutation of the blocks |
| ImportCli.SortedUnique | bin/import.js:113-121 | with distinct locales, there is exactly one sorted permutation, so any correct sort gives this result |
| ImportCli.SetRowKeys | bin/import.js:53-57 | writing a row appends its key when new and keeps the key order otherwise |
| ImportCli.GroupSheetKeys | bin/import.js:47-59 | after a sheet, a locale's keys are the earlier ones followed by new keys in first-mention order |
| ImportCli.GroupDataKeys | bin/import.js:44-74 | the imported messages of a locale are in the order its sheet first names their keys |

## Left out

- The reading and writing of files, YAML, the network and Google's APIs are left out. This includes OAuth, sheet creation, appending rows and reading sheets. What these calls return is a parameter: parsed blocks, sheet titles, grid values.
- The `.vue` and `.js` parsers are parameters, and so is the block schema validator (Ajv). A file's parse result and its validity are inputs.
- `path.relative` and `path.join` are left out: the relative path is an input, and joining is `dir + "/" + name` without normalization.
- Webpack loaders, the Nuxt plugin and module glue, and the plugin's cookie and `setLang` handling are not modelled. Vue reactivity is not modelled either, including the `locale-change` watch.
- The commands' option parsing and configuration loading are left out. `makeAllContents` and `mergeOptions`, which merge several sources, are left out too. `dumpToFiles` is modelled only for its sort; its directory creation and file writing are left out.
- `dictFromExternals` and `syncNewLines` are not modelled; they only move data to and from Google.
- JavaScript objects are ordered lists of keys. Array-index-like keys, which the engine enumerates first in numeric order, are not reordered. Prototype properties are not modelled.
- The keys of the global dictionary are triples, not `JSON.stringify` text.
- Runtime.Coerce: `parseFloat` is modelled as an optional sign and decimal digits after white space. Fractions, exponents and `Infinity` are left out, so counts are integers.
- Runtime.Vlang.IsInRange: range bounds are integers or ±infinity. `parseInt` accepts the same integer prefix as above; hexadecimal forms are not recognized.
- ImportCli.LexLess: it compares Unicode scalar values. JavaScript compares UTF-16 code units, so the order of characters outside the Basic Multilingual Plane can differ.
- ImportCli.SortBlocks: `Array.prototype.sort` sorts in place and is modelled as an insertion sort on a sequence. That the result is the same for any correct sort is proved by ImportCli.SortedUnique, but only when locales are distinct.
- Utils.DeepSetDefined: `deepSet` is modelled on values. The emptying of the caller's `path` array by `shift`, and the aliasing of the objects it creates, are not modelled. A path whose element is `undefined` stops the walk; this is modelled where the import passes an absent `Range`.
- Utils.MergeTranslations: requires a non-empty stack whose first list is non-empty. On an empty stack the source throws reading `stack[0][0]`. On an empty first list it returns `[undefined]` or later throws. The merged blocks alias the inputs' message objects, which is not modelled.
- Dict.NewLinesToSync: `!out[newKey]` always sees an object, and messages are objects, so only presence is modelled.
- Strings are sequences of characters. Lower-casing is ASCII only. White space for `trim` is the set that JavaScript uses.
