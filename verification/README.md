# clang-unformat, modelled in Dafny

clang-unformat infers a `.clang-format` file from a code base that is
already formatted. It runs a greedy coordinate search over a catalog of
clang-format parameters. Parameters are visited one at a time. For each
one the tool:

- applies the parameter's requirement (another parameter that must hold a
  given style for this one to matter);
- formats a copy of the sources once per candidate value;
- scores each copy by its Levenshtein distance to the original;
- keeps the candidate with the smallest distance;
- undoes the requirement unless it paid off.

Parameters the search cannot settle are filled in afterwards. First they
inherit the majority value of similar parameters (those sharing an
inheritance prefix). If that fails, they take a curated default. The
result is written out as a commented YAML file.

This project models that decision logic as pure Dafny functions and a few
imperative methods, and proves what the code promises about them. The
formatter is an uninterpreted `oracle` from the trial entry list to a cost
(`None` is the `size_t(-1)` failure sentinel).

Modules, one file each:

- `Wrappers`: `Option`.
- `Strings`: `starts_with`, strict `ends_with`, `find_first_of`, `find_last_of`, `from_chars` and decimal printing.
- `ClangFormat`: the entry and possible-values records.
- `Catalog`: `generate_clang_format_options` and its derivation loops, plus an excerpt of the literal table.
- `Search`: `apply_requirements`, `evaluate_option_values`, the rollback and `clang_format_local_search`.
- `Fallback`: `inherit_undetermined_values` and `set_default_values`.
- `Serializer`: `save` and `print`.
- `Levenshtein`: the one-row dynamic programme in `main.cpp`.
- `CliConfig`: the version-line parser, extension defaulting, thread defaulting and the extension test of `should_format`.

`standalone/main.cpp` contains an older, monolithic copy of the search and
fallback loops. It has the same logic and is modelled once, by the same
members.

The model follows the code where descriptions of it differ:

- The rollback undoes an override only when the overridden entry's score is
  strictly below the new closest distance. On a tie the required value is
  kept.
- `ends_with` is a proper-suffix test, so a curated default equal to an
  option never matches it.

## Model

| member | source | states |
|---|---|---|
| Strings.StartsWithIsPrefix | standalone/clang_format.cpp:16-18 | `starts_with(s, p)` holds exactly when `p` is a prefix of `s`. |
| Strings.EndsWith | standalone/clang_format.cpp:20-24 | `ends_with(s, t)` holds exactly when `t` is shorter than `s` and `s` ends with it. It is false when the two strings are equal. |
| Strings.FindFirstOf | standalone/cli_config.cpp:261 | Returns the first position at or after `from` holding the character, or `npos` (None) when there is none. |
| Strings.FindLastOf | standalone/clang_format.cpp:734-735 | Returns the last position holding the character, or `npos` (None) when there is none. |
| Strings.FromChars | standalone/cli_config.cpp:271-284 | Succeeds exactly when the text starts with a digit and the value of its leading digit run fits in `size_t`. The result is that value, and anything after the digits is ignored. |
| Strings.FromCharsRoundTrip | standalone/cli_config.cpp:271-277 | The decimal text of any `n < 2^64`, followed by a non-digit or nothing, parses back to `n`. |
| ClangFormat.SplitKey | standalone/clang_format.hpp:19-22 | A key with a '.' splits into a dot-free section and a sub-option, and `section + "." + sub` rebuilds the key. A key without a '.' has no section. |
| Catalog.DeriveRequirements | standalone/clang_format.cpp:545-557 | `BraceWrapping.` keys require `BreakBeforeBraces: BS_Custom`. `SpaceBeforeParensOptions.` keys require `SpaceBeforeParens: SBPO_Custom`. Every other key keeps its requirement. |
| Catalog.InheritPrefix | standalone/clang_format.cpp:562-580 | The field ends up holding the LAST listed prefix the key starts with. When no prefix matches, it keeps its previous value. |
| Catalog.PrefixField | standalone/clang_format.cpp:564-576 | Starting from an empty field, the inheritance prefix is empty exactly when no curated prefix matches. |
| Catalog.FirstSuffixDefault | standalone/clang_format.cpp:603-614 | Returns the first curated string that is a proper suffix of some option. When no curated string is, there is none. |
| Catalog.DefaultValue | standalone/clang_format.cpp:585-620 | The last family whose prefix the key starts with, and which finds a curated string, decides the default. When no family does, the field is unchanged. |
| Catalog.DeriveParam | standalone/clang_format.cpp:545-620 | Describes one row after all four loops. The options are kept in declaration order. It gives the requirement, the inheritance prefix (empty exactly when no prefix matches) and the default, as above. |
| Catalog.BooleanParamHasNoDefault | standalone/clang_format.cpp:598-616 | A `{true, false}` parameter never gets a default, whatever its key, because `ends_with` is strict. |
| Catalog.AllowDefaultsToNever | standalone/clang_format.cpp:588-616 | An `Allow…` key gets the default `Never` when some option ends in it (as `SBS_Never` does) and none ends in `false`. The default need not be an option itself. |
| Catalog.DecidedDefault | standalone/clang_format.cpp:600-618 | When a family decides, the default is that family's string, whatever the field held before. |
| Catalog.RequirementTargets | standalone/clang_format.cpp:545-557 | A derived requirement is empty or names one of the two style parameters. |
| Catalog.DerivedRequirementsPrecede | standalone/clang_format.cpp:541-557 | Take any table that lists each style parameter before the sub-options of its group. In such a table, every derived requirement names an earlier row. |
| Catalog.ExcerptBraceWrappingAfterTarget | standalone/clang_format.cpp:148-177 | In the table, every `BraceWrapping.` row follows `BreakBeforeBraces`. |
| Catalog.ExcerptSpaceBeforeParensAfterTarget | standalone/clang_format.cpp:464-500 | In the table, every `SpaceBeforeParensOptions.` row follows `SpaceBeforeParens`. |
| Catalog.ExcerptRequirementsPrecede | standalone/clang_format.cpp:148-500 | In the derived excerpt of the table, each requirement target precedes its dependents. |
| Catalog.ExcerptRequiredStylesExist | standalone/clang_format.cpp:148-157 | The styles the requirements set (`BS_Custom`, `SBPO_Custom`) are options of their target parameters. |
| Catalog.ExcerptKeysRepeat | standalone/clang_format.cpp:478-483 | Keys in the table are not unique: `SpaceBeforeParensOptions.AfterFunctionDeclarationName` is listed twice. |
| Search.FindKey | standalone/application.cpp:131-137 | Returns the first entry with the key, or none when no entry has it. |
| Search.ApplyRequirements | standalone/application.cpp:126-144 | The override applies exactly when the requirement key is non-empty and some entry has it. In that case only the FIRST such entry's value changes, and the old entry is remembered. Otherwise nothing changes and the remembered entry is a default one. |
| Search.UnappliedNeverRollsBack | standalone/clang_format.hpp:34-44 | The default entry carries the sentinel score, so when nothing was applied the rollback test is false. |
| Search.TrialIsSnapshot | standalone/application.cpp:219-241 | A trial keeps every current entry and appends exactly `(key, candidate, true, 0, false, "")`. |
| Search.ScanFailed | standalone/application.cpp:252-303 | The closest distance stays the sentinel exactly while every candidate has failed. In that case there is no improvement value and no influence. |
| Search.ScanMinimum | standalone/application.cpp:270-299 | Once some candidate has evaluated, the closest distance is the least real cost. The improvement is the FIRST candidate reaching it, because the comparison is a strict `<`. |
| Search.ScanInfluence | standalone/application.cpp:262-276 | The output counts as influenced exactly when two real costs differ. Failed candidates and equal costs never set the flag. |
| Search.Select | standalone/main.cpp:918-953 | Describes the whole fan-in: minimum or sentinel, first minimiser, and influence exactly when costs vary. |
| Search.EvaluateOptionValues | standalone/application.cpp:179-373 | Describes the entry construction. A single option appends `(key, option, true, 0, false, "single option")` and leaves the sentinel. A winner with influence appends the winner and its score. Without influence, and without the influence requirement, it appends the winner or the first option, marked failed when every candidate failed. With the requirement it appends nothing. Earlier entries are untouched. |
| Search.Step | standalone/application.cpp:384-420 | Describes one parameter. The candidates are evaluated on the entries with the override in place: the checkpoint and the closest distance are exactly that evaluation's. The checkpoint holds the overridden entries plus the new one. Afterwards the override is undone exactly when it was applied and the old score is strictly below the new closest distance. At most one entry is added, with the parameter's key. |
| Search.Rollback | standalone/application.cpp:407-417 | The undo restores the overridden entries exactly and keeps the appended entry. Without an undo the override stays. |
| Search.RollbackRestores | standalone/main.cpp:999-1006 | Putting the saved entry back in place of the first entry with its key restores the entries as they were before the override. |
| Search.VisitParam | standalone/application.cpp:389-417 | One pass of the search loop leaves entries from which the rest of the fold `Run` gives the same result as the fold from where it started, and keeps the loop's invariant: every entry belongs to a parameter already visited, and a requirement is applied only when its target was visited earlier. |
| Search.LocalSearch | standalone/application.cpp:376-423 | The entries are exactly those of running `Step` for each catalog parameter in turn, starting from none (the fold `Run`). Every entry belongs to a catalog parameter. A requirement is applied only when its target was visited earlier. Without the influence requirement (and with non-empty candidate strings), entry `i` belongs to parameter `i`, and a requirement is applied exactly when its target precedes it. |
| Fallback.Lookup | standalone/application.cpp:442-446 | Returns the possible values of the FIRST catalog row with the key. |
| Fallback.DonorValues | standalone/application.cpp:455-475 | The donor values are exactly the values of the entries that are not failed, affected the output and whose key starts with the prefix. Each value occurs as often as there are such entries holding it, which is the count the majority is taken over. |
| Fallback.PickFrom | standalone/application.cpp:476-500 | Returns no value exactly when no donor value is a legal option. Otherwise it returns a legal donor value whose count is maximal among the legal ones. |
| Fallback.Majority | standalone/application.cpp:476-500 | Same as `PickFrom`, over all donors. Ties among equal counts may go to any of them, since the sort is not stable. |
| Fallback.InheritOne | standalone/application.cpp:429-503 | An entry changes exactly when it is unresolved, its prefix is non-empty and some donor value is legal. A changed entry holds a majority legal value, is resolved and says `inherited from prefix P`. Its key and score are kept. |
| Fallback.InheritFromSteps | standalone/application.cpp:429-431 | The in-place pass rewrites each entry against the entries before it (already rewritten) and after it (untouched). |
| Fallback.InheritPassSpec | standalone/main.cpp:1014-1060 | Describes the whole inheritance pass. Resolved entries are never changed, and neither are entries whose parameter has no prefix. |
| Fallback.DefaultOne | standalone/application.cpp:509-540 | An entry changes exactly when it is unresolved and its default is non-empty. It then becomes `(default, affected, not failed, "Using default value D")`. |
| Fallback.DefaultPass | standalone/main.cpp:1062-1081 | Resolved entries are unchanged. An unresolved entry takes its non-empty default, or is left exactly as it was. |
| Fallback.DefaultPassIdempotent | standalone/application.cpp:507-541 | A second default pass changes nothing. |
| Fallback.ResolveOrder | standalone/clang_format.hpp:87-105 | Entries the search resolved are untouched. An inherited value is not replaced by a default. An entry still unresolved after both passes has no default and had no legal donor value. |
| Serializer.ShortValue | standalone/clang_format.cpp:734-741 | The written value is the suffix after the last '_', or the whole value when it has none. |
| Serializer.ShortValueOfEnumerator | standalone/clang_format.cpp:736-741 | `PREFIX_Name` is written `Name`, and shortening twice is shortening once. |
| Serializer.ScoreText | standalone/clang_format.cpp:762-768 | A score prints as a non-empty run of digits that denotes it. The sentinel prints as the digits of 2^64-1, the largest `size_t`. |
| Serializer.CommentText | standalone/clang_format.cpp:747-769 | The comment priority is: own comment, then `parameter not available`, then `did not affect the output`, then `edit distance N` when N is not 0, else none. |
| Serializer.EveryUnresolvedEntryIsExplained | standalone/clang_format.cpp:747-769 | An unresolved entry always gets a comment. Only a resolved, uncommented entry with score 0 gets none. |
| Serializer.KeyText | standalone/clang_format.cpp:711-730 | A top-level key is written whole. A dotted key is written as two spaces and the sub-option. |
| Serializer.EntryBody | standalone/clang_format.cpp:715-742 | The body is `entry_width` characters plus the two of `# ` for a failed entry. |
| Serializer.PaddingAsWritten | standalone/clang_format.cpp:743-745 | The `size_t` padding as written. |
| Serializer.PaddingAsWrittenWraps | standalone/clang_format.cpp:743-745 | The written padding differs from the aligned one exactly for a failed entry 49 or 50 wide. It then wraps to 2^64-1 or 2^64-2. |
| Serializer.WrappingEntry | standalone/clang_format.cpp:743-745 | Any failed top-level entry whose key and underscore-free value have 47 characters together makes the padding 2^64-1. |
| Serializer.Padding | standalone/clang_format.cpp:743-745 | The corrected padding puts the comment at column 50, or right after a wider body. |
| Serializer.EntryLineMark | standalone/clang_format.cpp:715-729 | A line starts with `# ` for a failed entry, and not with '#' otherwise. |
| Serializer.CommentColumnAligned | standalone/clang_format.cpp:743-769 | The comment is written after padding that ends at column 50, or right after a wider body. Without a comment nothing follows the value. |
| Serializer.SectionLine | standalone/clang_format.cpp:719-723 | A `section:` line is written exactly for a dotted key whose section differs from the previous one. |
| Serializer.LastSection | standalone/clang_format.cpp:708-726 | `prev_section` after some entries is the section of the last dotted key among them. Top-level keys leave it alone. |
| Serializer.Save | standalone/clang_format.cpp:704-705 | The file starts with the fixed header line. |
| Serializer.BodyAppend | standalone/clang_format.cpp:708-771 | Rendering entries `a + b` renders `a`, then `b` with `a`'s last section as the previous one. |
| Serializer.SaveLayout | standalone/clang_format.cpp:700-772 | In the saved file, entry `j` has its own line. A section line precedes it exactly when its section differs from that of the last dotted key before it. |
| Levenshtein.LevenshteinDistance | standalone/main.cpp:27-65 | The one-row programme, trivial cases included, returns exactly the textbook edit distance. Every `costs` access is in bounds. |
| Levenshtein.NextRow | standalone/main.cpp:46-62 | One pass turns row `i` of the table into row `i + 1`. |
| Levenshtein.MatchingLast | standalone/main.cpp:53-54 | When the last characters match, the distance is that of the shortened strings, so copying the diagonal is right. |
| Levenshtein.Edges | standalone/main.cpp:32-43 | Against an empty text the distance is the other text's length. |
| Levenshtein.DistanceToSelf | standalone/main.cpp:27-28 | `d(s, s) = 0`. |
| Levenshtein.ZeroMeansEqual | standalone/main.cpp:27-28 | Distance zero means equal texts. |
| Levenshtein.DistanceBounds | standalone/main.cpp:27-28 | `abs(m - n) <= d <= max(m, n)`. |
| Levenshtein.DistanceSymmetric | standalone/main.cpp:27-28 | `d(a, b) = d(b, a)`. |
| CliConfig.ReadVersion | standalone/cli_config.cpp:243-296 | Lines without the `clang-format version ` tag leave the stored major and the result alone. The stored major changes only through a tagged line. |
| CliConfig.StopsAtEmptyLine | standalone/cli_config.cpp:253 | Everything after the first empty line is ignored. |
| CliConfig.ReadsInSequence | standalone/cli_config.cpp:253-295 | Reading a block that succeeds, then the rest, equals reading the rest from the major the block left. |
| CliConfig.ReadsMajor | standalone/cli_config.cpp:261-295 | `clang-format version N.x` stores `N` for any `N < 2^64`. A major below 13 is no exception, since it only warns. |
| CliConfig.LaterLineWins | standalone/cli_config.cpp:286 | Of two version lines, the later one is stored. |
| CliConfig.MissingDotFails | standalone/cli_config.cpp:261-268 | A tagged line with no '.' after the tag fails and keeps the stored major. |
| CliConfig.NonDigitMajorFails | standalone/cli_config.cpp:271-284 | A major that does not start with a digit fails. |
| CliConfig.ValidateExtensions | standalone/cli_config.cpp:330-348 | The list is never empty afterwards. An empty list becomes `h, hpp, cpp, ipp`, and any other list is kept. |
| CliConfig.ValidateExtensionsIdempotent | standalone/cli_config.cpp:334-341 | Validating twice changes nothing further. |
| CliConfig.ExtensionMatchesEitherSpelling | standalone/application.cpp:548-556 | A file extension matches a configured one exactly when it equals it, with or without the leading dot. |
| CliConfig.FindExtension | standalone/application.cpp:548-556 | Returns the first configured extension that matches, or none exactly when none does. |
| CliConfig.DefaultsFormatCpp | standalone/cli_config.cpp:338 | With the default list, `.cpp` and `.hpp` files are formatted and `.txt` files are not. |
| CliConfig.ThreadsAsWritten | standalone/cli_config.cpp:351-372 | A non-zero count is kept. A zero count becomes at most one and at most the hardware concurrency. It stays zero exactly when the hardware concurrency is 0, and becomes 1 otherwise. |
| CliConfig.ThreadsAsWrittenStaysZero | standalone/cli_config.cpp:358-360 | With hardware concurrency 0 the count stays 0. On any machine it is at most 1. |
| CliConfig.Threads | standalone/cli_config.cpp:358-360 | The corrected defaulting always yields a positive count. That count is the hardware concurrency when one is reported, and 1 when it is 0. |
| CliConfig.ThreadsInMainAgrees | standalone/main.cpp:268-271 | The older copy of the validation turns a zero count into the count the futures library reports. Fed that same count, it agrees with the corrected defaulting exactly when the count is positive. |
| CliConfig.ThreadsDiffer | standalone/cli_config.cpp:351-372 | The two defaultings differ exactly when the count was zero and the machine reports other than one core. |

## Left out

- The formatter and file I/O are not modelled: copying the sources, running clang-format, reading files, writing `.clang-format` and checkpoints. The formatter is the `oracle` parameter. The checkpoint is returned as data, and its `!current_cf_.empty()` guard is only a file write.
- The thread pool and futures are not modelled. Each task works on its own copy and results are read in candidate order, so the fan-out is a sequential map.
- Terminal output is not modelled: colours, progress tables, time estimates and `print_time_stats`. `print` writes the same lines as `save` without the header, so `Save` stands for both.
- `standalone/levenshtein.cpp` delegates to edlib and is not part of this model. The path overload only reads files.
- Command-line parsing and the filesystem checks are not modelled, since they are I/O plumbing. The declaration-only headers `application.hpp`, `cli_config.hpp` and `levenshtein.hpp` add nothing to model.
- `set_clang_format_version` runs the executable, and its `c.running()` test depends on the process. Its output is given as a list of lines, read while the process runs.
- Scores are unbounded naturals. A real cost of 2^64-1 or more, which `size_t` would confuse with the sentinel, is not modelled.
- `std::vector` is modelled as `seq`. The Levenshtein `costs` row is a `seq<nat>` updated in place, whose indexing Dafny bounds-checks.
- The counting list `other_entries_count` and its sort are modelled by multiset counts. The implementation breaks ties by first appearance, but the contracts (`IsMajority`) allow any tied value, as the unstable sort does.
- Fallback.InheritPassSpec: the pass-level lemmas (`InheritPassSpec`, `InheritFromSteps`, `ResolveOrder`) are proved for the first-appearance tie resolution. A different choice among tied values in one entry changes the donor counts that later entries see. The per-entry contract of `InheritOne` is the only statement made for any tie choice.
- `ThreadsInMain` takes the count that `futures::hardware_concurrency()` reports as a parameter of its own. That helper is not part of this model, so whether it can report 0 where `std::thread::hardware_concurrency()` does is left open.
- `Runnable` requires every parameter to have at least one option. The search reads `options.front()`, which is undefined behaviour on an empty list, and every row of the table has options.
- The `--parallel` option default (cli_config.cpp:48) is a command-line parsing detail. Its `min` is the same expression as `ThreadsAsWritten`'s.
- The catalog lookups in both passes are undefined behaviour when they miss. `Covers` requires every entry to belong to the catalog, which the search guarantees.
- Search.LocalSearch: the values chosen are pinned down only through the fold `Run`; no closed-form statement says which value each parameter ends with. The exact one-entry-per-parameter shape is stated only when influence is not required and no candidate string is empty. In the other cases it states only that every entry belongs to some parameter and that applied requirements target earlier parameters.
- Catalog.ExcerptRequirementsPrecede: the literal table is checked on an excerpt (the brace-wrapping and space-before-parens groups), not on all its rows.
- `Save` and the rest of the model use the corrected `Padding`. The wrapping one is kept beside it, see Findings.
- `fmt`'s `"{0: ^{N}}"` on an empty string is taken to be N spaces.

## Findings

| source | as written | input that shows it | evidently intended | confidence | as-written member | corrected member |
|---|---|---|---|---|---|---|
| standalone/clang_format.cpp:743-745 | `50 - entry_width - (failed ? 2 : 0)` in `size_t`, guarded only by `entry_width > 50` | a failed top-level entry whose key and shortened value have 47 characters together (width 49): padding 2^64-1 | pad a failed entry to column 50 as well, i.e. no padding once the body including `# ` reaches 50 | medium, not executed; the shipped catalog's keys plus values stay below this width | Serializer.PaddingAsWrittenWraps | Serializer.Padding |
| standalone/cli_config.cpp:358-360 | a zero thread count becomes `min(hardware_concurrency(), 1)`; the `--parallel` default at cli_config.cpp:48 uses the same `min`, so the zero count arises without the user asking for it | `hardware_concurrency()` returns 0 (unknown): the count stays 0; with 8 cores it becomes 1 | `max(hardware_concurrency(), 1)`: a positive count, all cores when known, as the field default at cli_config.hpp:24 and the older copy at main.cpp:270 suggest | medium, not executed | CliConfig.ThreadsAsWrittenStaysZero | CliConfig.Threads |
