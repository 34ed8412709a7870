# PolyglotCs localisation core in Dafny

PolyglotCs compiles a directory of JSON translation files into C# classes,
one class per locale. A `config.json` names the root locale (`en` when
absent) and a `locale -> default locale` map. Values may hold plural
variants separated by `||||`. Each generated locale class falls back to its
default locale's member whenever it lacks a usable value of its own. A small
runtime library picks the plural variant for a count and negotiates a locale
from a list of requested tags.

This project models that core as pure Dafny functions and methods over
immutable data, and proves what the compiler and library promise.

- `entries.dfy` (`Entries`): one translated value. `FromRawValue` splits a raw
  value into a single text or two to three plural variants.
- `strings.dfy` (`Strings`): the ordinal string operations the code uses. These are
  `Contains`, `Split` and `Join` on a separator, and ASCII `ToLower`. It also
  holds the split/join round trip.
- `flatten.dfy` (`Flatten`): `FlattenEntries`, which turns a nested document
  into dotted keys.
- `ordered_dict.dfy` (`OrderedDict`): an insertion-ordered dictionary. It makes
  `FirstOrDefault` over `Keys` and `Values` deterministic.
- `resolver.dfy` (`Resolver`): the fallback-order resolver. It runs three
  passes over the configured map, then appends the locales found only as
  files. The result is the processing order `LangOrder` and a total defaults
  map, in which every locale but the root falls back to a strictly earlier one.
  `ExpectedDefault` states each locale's resolved default independently of the
  order in which equally ready locales are picked.
- `unify.dfy` (`Unify`): the interface key set, where the first locale in the
  order to define a key decides its kind.
- `binding.dfy` (`Binding`): the body chosen for each member. A member uses its
  own entry, defers to its default's member, or, at the root, takes the empty
  value. `Evaluate` follows the deferrals, and `EvaluateFollowsChain` proves
  where the value comes from.
- `plurals.dfy` (`Plurals`): the plural families, the bounds-safe
  `PluralIndexer`, and both family tables, including the family the compiler
  picks for a locale.
- `negotiate.dfy` (`Negotiate`): `Utils.GetForLanguage`, both overloads.
- `compiler.dfy` (`Compiler`): the pipeline from configuration and locale files
  to the resolved build and the unified interface.

Inputs are parameters. The configuration is an `OrderedDict.Dict` whose values
are non-null locale names; a JSON `null` there makes the source throw. The
locale files are a sequence of `(name, top-level properties)` pairs in
directory-listing order.

Against the locales `{en, ru}`, the tag list
`["zz-UA","zz-us","it","ru-RU","ru-ua"]` resolves to `ru`. No tag is an exact
key (`it` matches nothing), and the second phase cuts `ru-RU` to `ru`
(reusable/Polyglot.cs:190-210; `Negotiate.SampleUncompiledTagSkipped`).

## Model

| member | source | states |
|---|---|---|
| `Entries.FromRawValue` | Compile/Program.cs:30-53 | Null or delimiter-free input gives a single entry whose text and raw value are both the input. Otherwise it gives a plural entry. That entry has 2 to 3 delimiter-free variants that begin the `\|\|\|\|` split, its raw value is unchanged, and joining the variants gives the raw value back when there were at most three pieces. |
| `Entries.ManyPiecesKeepThree` | Compile/Program.cs:41-52 | Any value that splits into more than three pieces becomes a plural entry holding exactly the first three pieces, with the raw value unchanged. |
| `Entries.FiveSegmentsKeepThree` | Compile/Program.cs:41-52 | A concrete instance: a value of five one-character pieces keeps exactly its first three as variants. |
| `Entries.NoDelimiterIsSingle` | Compile/Program.cs:32-39 | A string with no occurrence of the delimiter becomes a single entry holding it. |
| `Strings.JoinSplit` | Compile/Program.cs:41 | Joining the pieces of `Split` with the same separator rebuilds the string. |
| `Strings.SplitPiecesFree` | Compile/Program.cs:41 | No piece produced by `Split` contains the separator. |
| `Flatten.FlattenIsApply` | Compile/Program.cs:97-119 | Flattening writes the string leaves in depth-first document order. Objects are descended into under the qualified name; other tokens are skipped. |
| `Flatten.FlattenFrom` | Compile/Program.cs:97-119 | A key once written is never removed by the rest of the walk. That the walk writes the string leaves in depth-first order, later writes replacing earlier ones, is `Flatten.FlattenIsApply`. |
| `Flatten.Flatten` | Compile/Program.cs:97-119 | A document's entries are its string leaves written in depth-first order into an empty dictionary. `Flatten.FlattenSound` and `Flatten.FlattenComplete` state which keys and values result. |
| `Flatten.ApplyLastWins` | Compile/Program.cs:109-112 | After a batch of writes, the written keys are present and each holds the value of its last write. Every value came from a write or from before, and untouched keys keep their values. |
| `Flatten.FlattenComplete` | Compile/Program.cs:97-119 | Every path to a string leaf appears as a dotted key. |
| `Flatten.FlattenSound` | Compile/Program.cs:97-119 | Every key is the dotted path to a string leaf holding the key's value. |
| `OrderedDict.Put` | Compile/Program.cs:195-198 | An assignment updates the value and appends the key to the enumeration order only when it is new. |
| `Resolver.RootLocale` | Compile/Program.cs:142 | The root is the configured `default_locale`, or `en` when none is set. |
| `Resolver.FirstReady` | Compile/Program.cs:179-186 | The result is a configured default that is unscheduled, not the root, and either has no default or has a scheduled one. It is the value at some key position from which every earlier position holds a value that is not ready, so it is the first ready value in enumeration order. None means no value is ready. |
| `Resolver.SchedulePass1` | Compile/Program.cs:177-199 | Pass 1 keeps the state invariants and leaves configured defaults untouched. It schedules only configured defaults, and a non-root default is scheduled exactly when its configured chain is grounded (reaches the root or an unconfigured locale). |
| `Resolver.DistinctPending` | Compile/Program.cs:203-209 | The pass-2 snapshot holds, without repeats, exactly the configured defaults that are unscheduled and are not the root. They appear in the order of their first occurrence among the values. |
| `Resolver.RedirectPass2` | Compile/Program.cs:203-213 | Pass 2 schedules every configured default. Each locale it adds is ungrounded and is redirected to the root. |
| `Resolver.FirstUnscheduledKey` | Compile/Program.cs:218-221 | The result is a configured key that is unscheduled and not the root, and every key enumerated before it is scheduled or is the root. None means every key is scheduled or is the root. |
| `Resolver.ScheduleKeysPass3` | Compile/Program.cs:216-229 | Pass 3 schedules every remaining configured key. Each locale it adds is a key that nobody falls back to. |
| `Resolver.ResolveConfigured` | Compile/Program.cs:154-232 | The order starts with the root and has no repeats. The defaults are defined on exactly the ordered locales, which are the root, the keys and the values. The root maps to null and every other locale to a strictly earlier one. Each default equals `ExpectedDefault`, whatever order ready locales are picked in. The order is sorted by pass (`PassOrdered`): the root, then the grounded defaults, then the defaults caught in or behind a cycle, then the keys nobody falls back to. |
| `Resolver.PassesOrdered` | Compile/Program.cs:159-229 | When the order is the root, then locales that are grounded defaults, then ungrounded defaults, then locales that are nobody's default, it is sorted by `PassOf`. `PassOf` is 0, 1, 2 and 3 for those four groups. |
| `Resolver.PassOrderExample` | Compile/Program.cs:159-229 | With root `en` and defaults `{k: en, p: v}`, the order `[en, v, k, p]` is sorted by pass. The order `[en, k, v, p]` is not, because pass 1 schedules the grounded default `v` before pass 3 adds the key `k`. |
| `Resolver.FinalDefaults` | Compile/Program.cs:232 | The defaults map is defined on the working dictionary's keys and the root. The root maps to null and every other key to its entry in the working dictionary. |
| `Resolver.AddFileLocales` | Compile/Program.cs:258-266 | Appending the file locales keeps the resolved shape and extends the old order. It adds exactly the missing file locales, in the order of their first appearance in the file listing. It keeps old defaults and sends new locales to the root. |
| `Resolver.DefaultIndexSmaller` | Compile/Program.cs:388-393 | In a resolved order, every non-root locale's default sits at a smaller index. |
| `Resolver.TwoCycleFallsToRoot` | Compile/Program.cs:201-213 | Two non-root locales that name each other, or one that names itself, both fall back to the root. |
| `Resolver.StuckNeverGrounded` | Compile/Program.cs:201-213 | Locales closed under "configured default" that avoid the root are never grounded. This covers locales on a cycle and locales leading into one. |
| `Resolver.EdgeToLeafKept` | Compile/Program.cs:193-198 | A configured default that has no default of its own is kept as the default, and it falls back to the root itself. |
| `Unify.AddLocale` | Compile/Program.cs:280-287 | One locale's turn adds its new keys with the kind of its entry and leaves known keys unchanged. |
| `Unify.EntriesOf` | Compile/Program.cs:369-380 | A locale's entries define exactly the keys its file defines. A locale that only the configuration names gets an empty entry set. |
| `Unify.Unified` | Compile/Program.cs:271-288 | The keys are exactly those some locale in the order defines. Each key's kind is that of the first locale in the order defining it. |
| `Unify.PrefixStable` | Compile/Program.cs:281-284 | The locales after any prefix of the order never change a kind that the prefix decided. |
| `Binding.Decide` | Compile/Program.cs:438-452 | A member uses its own entry exactly when the entry exists and has the key's shape. Otherwise it defers to its default, and with no default (the root) it is empty. |
| `Binding.OwnValue` | Compile/Program.cs:428-451 | A member that uses its own entry has the key's shape: a text for a text key, an indexer for a counted key. Where the text or variants come from is `Binding.EvaluateFollowsChain`. |
| `Binding.Empty` | Compile/Program.cs:441-451 | The root's value for a key without a fitting entry has the key's shape: `""` for a text key, `PluralIndexer.Dummy` for a counted one. `Plurals.DummyIsEmpty` shows that the latter gives `""` for every count. |
| `Binding.MismatchDefers` | Compile/Program.cs:442-451 | A plural entry under a text key, or a text entry under a counted key, is never used. |
| `Binding.EntryAt` | Compile/Program.cs:422-423 | A locale has an entry for a key exactly when its file defines the key, and that entry is the file's own. A locale without a file has none, as its empty `Entries` (lines 371-377) give. |
| `Binding.DeferTargetEarlier` | Compile/Program.cs:387-393 | A deferring member names a locale processed earlier, whose class therefore exists. Only the root can be empty. |
| `Binding.Chain` | Compile/Program.cs:390-393 | Following defaults from any locale gives a strictly decreasing chain of positions that ends at the root. |
| `Binding.Evaluate` | Compile/Program.cs:438-452 | A text key evaluates to a text and a counted key to an indexer. |
| `Binding.EvaluateFollowsChain` | Compile/Program.cs:420-452 | A member's value comes from the nearest locale on its fallback chain that has a fitting entry. When there is none, it is `""` or `PluralIndexer.Dummy`. |
| `Compiler.IconOf` | Compile/Program.cs:238-243 | A file counts only when its lower-cased name is `xx` or `xx-yy` in lower-case ASCII letters. |
| `Compiler.IsLocaleIcon` | Compile/Program.cs:240 | The filter `^[a-z]{2}(\-[a-z]{2})?$` as an exact match: two lower-case ASCII letters, then optionally a hyphen and two more. It has no contract of its own. `Compiler.IconOf` states what passes it, and the `$` difference is listed under Left out. |
| `Compiler.EntriesOfFile` | Compile/Program.cs:245-253 | A file's entries are exactly its flattened keys. Each entry is `FromRawValue` of that key's flattened value, so its raw value is the flattened value. |
| `Compiler.Icons` | Compile/Program.cs:236-243 | The accepted locales are exactly the lower-cased names of the files that pass the filter. |
| `Compiler.LoadLanguages` | Compile/Program.cs:236-255 | Locales are loaded for exactly the accepted files. The last file with a given lower-cased name wins. |
| `Compiler.SkippedFileIgnored` | Compile/Program.cs:240-243 | A file whose name fails the filter changes nothing. |
| `Compiler.ResolveAll` | Compile/Program.cs:154-266 | The result is well resolved and every default equals `ExpectedDefault`, so file-only locales fall back to the root. The order (`Layout`) starts with exactly the root and the configured keys and defaults, sorted by pass as in `ResolveConfigured`. Then come the file-only locales, in the order of their first appearance in the file listing. |
| `Compiler.Interface` | Compile/Program.cs:271-288 | When every loaded locale is in the order, the interface keys are exactly the keys of the loaded files. Each key has the kind of its first definer in the order. |
| `Compiler.Compile` | Compile/Program.cs:154-288 | The build is resolved and each default equals `ExpectedDefault`. Its order starts with exactly the root and the configured locales (keys and defaults), sorted by pass as in `ResolveConfigured`. Then come the file-only locales, in the order of their first appearance among the accepted file names, which `Compile` also returns (`Icons(files)`). The interface keys are exactly the keys of all loaded files, each with the kind of its first definer in the order. |
| `Plurals.IndexForCount` | reusable/Polyglot.cs:62-135 | Every family returns 0, 1 or 2. Base and Chinese always return 0, and German, French and Icelandic at most 1. The contract also states when each family returns 0 or 1, in terms of the count and C#'s truncating remainder. |
| `Plurals.TRem` | reusable/Polyglot.cs:95-98 | C#'s `%`: for a positive divisor, the remainder differs from the dividend by a multiple of the divisor, takes the dividend's sign, and is smaller in magnitude than the divisor. These three facts fix it uniquely. |
| `Plurals.RussianSamples` | reusable/Polyglot.cs:93-101 | Russian maps 1→0, 2→1, 5→2, 11→2, 12→2, 21→0, 22→1 and 111→2. |
| `Plurals.CzechSamples` | reusable/Polyglot.cs:106-114 | Czech maps 1→0, 3→1, and 0, 21 and 22 →2. |
| `Plurals.PolishSamples` | reusable/Polyglot.cs:119-127 | Polish maps 1→0, 22→1, 12→2 and 21→2. |
| `Plurals.IcelandicSamples` | reusable/Polyglot.cs:132-135 | Icelandic maps 1→0, 21→0, 11→1 and 0→1. |
| `Plurals.PolishVersusRussian` | reusable/Polyglot.cs:93-127 | Polish and Russian differ exactly on counts other than 1 that end in 1 outside the teens. There Russian gives 0 and Polish 2. |
| `Plurals.CzechVersusPolish` | reusable/Polyglot.cs:106-127 | Czech and Polish agree on every count below 22. |
| `Plurals.CzechPolishPart` | reusable/Polyglot.cs:106-127 | At 22, Czech gives 2 and Polish 1. |
| `Plurals.NegativeCounts` | reusable/Polyglot.cs:77-135 | A negative count gives 2 for Russian, Polish and Czech, 1 for Icelandic and German, and 0 for French. |
| `Plurals.Periodic` | reusable/Polyglot.cs:93-135 | Russian, Icelandic and Polish (away from 1) repeat every hundred non-negative counts. |
| `Plurals.Lookup` | reusable/Polyglot.cs:153-171 | A null strategy, null values or no values give `""`. Otherwise the result is one of the values: the family's variant when it exists, else the first. |
| `Plurals.DummyIsEmpty` | reusable/Polyglot.cs:145 | `PluralIndexer.Dummy` gives `""` for every count. |
| `Plurals.ThreeVariantsNeverClamped` | reusable/Polyglot.cs:162-169 | With three variants, every family's choice is used as is. |
| `Plurals.TwoVariantsTwoForms` | reusable/Polyglot.cs:162-169 | With two variants, the two-form families' choice is used as is. |
| `Plurals.TwoVariantsManyClamped` | reusable/Polyglot.cs:164-167 | With two variants, Russian's "many" form falls back to the first variant. |
| `Plurals.FieldNamed` | reusable/Polyglot.cs:11-17 | Only the seven derived families have a static field, and each field is named after its family. |
| `Plurals.FieldNamedRoundTrip` | reusable/Polyglot.cs:11-17 | A derived family's name leads back to its field. The base class's name leads to none. |
| `Plurals.TablesAgree` | reusable/Polyglot.cs:30-59 | The compile-time table of family names names the runtime table's family for every locale. |
| `Plurals.RuntimeTable` | reusable/Polyglot.cs:30-59 | The runtime locale-to-family table. It has no contract of its own. `Plurals.RuntimeNamesDerived` and `Plurals.TablesAgree` pin it. |
| `Plurals.RuntimeNamesDerived` | reusable/Polyglot.cs:30-59 | Every locale in the runtime table gets a derived family, never the base class. |
| `Plurals.CompileTable` | Compile/Program.cs:335-367 | The compiler's locale-to-name table. It has no contract of its own. `Plurals.TablesAgree` and `Plurals.CompileNamesFields` pin it. |
| `Plurals.CompileNamesFields` | Compile/Program.cs:335-367 | Every name in the compiler's table names an existing static strategy field. |
| `Plurals.StrategyFor` | Compile/Program.cs:385 | Where the emitted reference names a field, the locale's strategy is that field. |
| `Plurals.EmittedStrategy` | Compile/Program.cs:385 | The reference emitted at line 432 names a field exactly when the table supplies a name rather than the fallback `"Plural"`, and it never names the base class. `Plurals.EmittedMatchesRuntime` relates it to runtime negotiation. |
| `Plurals.EmittedMatchesRuntime` | Compile/Program.cs:385 | The compile-time choice equals runtime negotiation over the runtime table with the base class as default. The emitted reference names no field exactly when that negotiation falls back to the base class. |
| `Plurals.BrazilianStrategy` | Compile/Program.cs:385 | `pt-br` gets French. |
| `Plurals.EuropeanPortugueseStrategy` | Compile/Program.cs:385 | `pt-pt` gets German through `pt`. |
| `Plurals.UnknownLocaleNamesNoField` | Compile/Program.cs:432 | For a locale missing from the table (`uk`), the emitted `Plural.Plural` names no strategy field. |
| `Plurals.UnknownLocaleFirstVariant` | Compile/Program.cs:385 | With the base class as fallback, such a locale always selects the first variant. |
| `Negotiate.LowerAll` | reusable/Polyglot.cs:185 | Each requested tag is lower-cased in place. |
| `Negotiate.ExactScan` | reusable/Polyglot.cs:190-196 | The first phase yields the value of the first tag that is a key, and yields nothing only when no tag is a key. |
| `Negotiate.CutScan` | reusable/Polyglot.cs:199-208 | The second phase yields the value of the first `xx-…` tag whose `xx` is a key, and yields nothing only when there is none. |
| `Negotiate.GetForLanguage` | reusable/Polyglot.cs:178-211 | A null or empty list gives the default. Otherwise the first tag found as it stands wins, scanning the whole list before any cut tag. Failing that, the first cut `xx-…` tag found wins; failing both, the default. |
| `Negotiate.GetForLanguageOne` | reusable/Polyglot.cs:215-218 | For one tag: the tag lower-cased if it is a key, else its primary subtag when the tag is `xx-…` and that subtag is a key, else the default. |
| `Negotiate.GetForLanguageNatural` | reusable/Polyglot.cs:178-211 | Negotiation only chooses a key. Renaming the values and the default first gives the renamed result. |
| `Negotiate.SampleSingleTags` | TestApp/Program.cs:10-12 | Against `{en, ru}` with default `en`: `ru` gives `ru`, while `it-xx` and `yy` give `en`. |
| `Negotiate.SampleRegionFallback` | TestApp/Program.cs:13 | `["zz-UA","zz-us","ru-RU","ru-ua"]` gives `ru`. |
| `Negotiate.SampleUncompiledTagSkipped` | TestApp/Program.cs:14 | `["zz-UA","zz-us","it","ru-RU","ru-ua"]` gives `ru`. |

## Left out

- File and directory access, JSON parsing and configuration deserialisation: documents and the configuration are inputs. A locale file whose top level is not an object makes the source throw; the model takes top-level properties directly.
- Code emission: the interface and class text, namespace and class naming, `StringLiteral` (Compile/Program.cs:73-95) and `NormMethodName`. `NormMethodName` maps `a.b` and `a__b` to the same member name, and the model keeps them as distinct keys.
- The flat TypeScript export and the command-line argument parser: plumbing outside the resolution core.
- Culture-sensitive `ToLower`: the model lowers only the ASCII letters `A`-`Z`, both for file names and for requested tags. .NET lowers with the current culture and over all of Unicode. So a file name whose lower-cased form becomes ASCII only under .NET (a Kelvin sign U+212A lowers to `k`) is accepted by the source and rejected by `Compiler.IconOf`. Under a Turkish culture, `IT.json` lowers to a dotless `ı` and the source skips it, while the model accepts it. Run-time negotiation has the same simplification (`Negotiate.LowerAll`).
- Strings are sequences of characters. The source indexes UTF-16 code units (`l[2]`, `Substring(0, 2)`), so the two differ only for text outside the Basic Multilingual Plane.
- Null requested tags: a `null` element in the tag list, or a `null` single tag, makes the source throw `NullReferenceException` while lower-casing. The model's tags are non-null strings; a null or empty list is modelled and gives the default.
- `int` counts: counts are unbounded integers, and the family rules contain no arithmetic that could overflow.
- `Binding.Evaluate`: gives the entry text or variants a generated member designates. The run-time string equals it only for texts without a backslash and without a line separator other than CR and LF. `StringLiteral` (Compile/Program.cs:73-95) escapes only `"`, CR and LF. So a backslash in a value is read by the C# compiler as the start of an escape, a trailing backslash swallows the closing quote, and U+0085, U+2028 and U+2029 end the literal early. The generated code itself is not modelled.
- The order of keys within one locale's entries: each locale's keys are distinct, so the order cannot change the unified kinds.
- `Compiler.IconOf`: the filter is modelled as an exact match, but the regular expression's `$` (Compile/Program.cs:240) also matches before a final newline. A Unix file name such as `en\n.json` is possible. The source accepts it and loads it as a locale named `en` followed by a newline, while `IconOf` rejects it.

## Findings

| source | as written | input that shows it | evidently intended | confidence | as-written member | corrected member |
|---|---|---|---|---|---|---|
| Compile/Program.cs:385 | A locale missing from the family table gets the fallback name `"Plural"`, and the emitted indexer refers to `Plural.Plural`. That is a static field which does not exist. | A file `uk.json` with a plural value for some key, where the first locale in the order that defines that key defines it as plural, so the key's unified kind is plural (Compile/Program.cs:271-288, 428-432) | The base strategy, which always selects the first variant; locales absent from the table are meant to get no pluralisation | medium, not executed | `Plurals.UnknownLocaleNamesNoField` | `Plurals.UnknownLocaleFirstVariant` |

Members use `Plurals.StrategyFor`, the corrected choice, which falls back to the base class.
