# JKA server assets minifier, modelled in Dafny

The minifier builds a small server-side asset archive out of the game's
asset archives. A rules file names:

- the output archive (`OutFilename`);
- the input archives, optionally with their md5 (`InputFile <md5|0> <name>`);
- wildcard patterns for the entries to keep (`EntryWhitelist`);
- wildcard patterns for the entries to drop (`EntryBlacklist`).

The minifier does the following:

1. It lists the input folder through the input-file predicate.
2. It compares the number of selected archives with the number of InputFile names (the count check).
3. It empties a staging folder.
4. It extracts the accepted entries of every selected archive into the
   staging folder, in order. A later entry overwrites an earlier one, and
   the entry timestamps are recorded in `zipTimeMap`.
5. It repacks the staging folder into the output archive, stamping each
   entry from `zipTimeMap`.
6. It deletes the staging folder.

Modules:

- `Wrappers`: `Option` and `Result`, which stand in for Java's null and for exceptions.
- `Seqs`: the set of positions of a sequence that satisfy a predicate.
- `Text`: the string primitives the core relies on, each modelled by its own definition:
  - ASCII case folding;
  - `String.trim`;
  - `StringUtils.split` on spaces with a token limit;
  - the file-name part of a path and resolving a name against a folder;
  - separator normalisation.
- `Wildcard`: a case-insensitive `*`/`?` glob, which stands in for `FilenameUtils.wildcardMatch(…, IOCase.INSENSITIVE)`.
- `Archive`: archives as sequences of entries, input files (bytes and entries, either of which may be unreadable), output entries.
- `Rules` (`AssetsRules.java`):
  - the parser, as a function over the lines (`Classify`, `Apply`, `Scan`, `Parse`), with reference descriptions of the result (`LastOutFilename`, `InputFileNames`, `WhitelistOf`, `BlacklistOf`);
  - the imperative `parseRulesFile` loop in the class `AssetsRules`, proved equal to that function;
  - the two predicates and the getters.
- `Minifier` (`JKAServerAssetsMinifier.java`):
  - extraction and repack as functions of the entries (`Staged`, `Stamped`, `ExtractedCount`, `IsRepackOf`);
  - the class `AssetsMinifier`, whose methods update the staging map, `zipTimeMap` and the written archives with loops, and are proved against those functions;
  - `Minified`, which states the whole outcome of `minify`.

## Model

Source paths are relative to the repository root.

| member | source | states |
|---|---|---|
| Text.Lower | src/main/java/com/avygeil/jkaserverassetsminifier/AssetsRules.java:34 | `toLowerCase`, restricted to ASCII letters: the same length, each letter `A`–`Z` lowered and every other character kept. |
| Text.Trim | src/main/java/com/avygeil/jkaserverassetsminifier/AssetsRules.java:44 | `String.trim`: the line without its longest prefix and longest suffix of characters up to `' '`. |
| Text.Split | src/main/java/com/avygeil/jkaserverassetsminifier/AssetsRules.java:44 | `StringUtils.split(line, " ", max)`: the maximal runs of non-space characters, except that the max-th token, once reached, runs to the end of the line; a limit of 0 means none. |
| Rules.SplitMax | src/main/java/com/avygeil/jkaserverassetsminifier/AssetsRules.java:34-42 | The token limit of a line is 3 for an `inputfile ` prefix, 2 for the other three prefixes, and 0 (the line is skipped) otherwise. |
| Rules.LeadingWhitespaceIgnored | src/main/java/com/avygeil/jkaserverassetsminifier/AssetsRules.java:34-42 | The prefix test runs on the untrimmed line, so a line that starts with whitespace is never a directive. |
| Rules.Decide | src/main/java/com/avygeil/jkaserverassetsminifier/AssetsRules.java:46-61 | The directive a line's tokens make: no tokens is skipped; otherwise the first token, compared ignoring case, names the keyword, and the token count must be exactly 2 (3 for InputFile), or the line is skipped. |
| Rules.Classify | src/main/java/com/avygeil/jkaserverassetsminifier/AssetsRules.java:34-61 | The directive of one line: skipped when the prefix test gives no token limit, otherwise `Decide` of the split of the trimmed line with that limit. |
| Rules.ClassifyOutFilename | src/main/java/com/avygeil/jkaserverassetsminifier/AssetsRules.java:34-54 | `<keyword in any case> <name>`, with the name not trimmed at either end, is an OutFilename directive for that name. |
| Rules.ClassifyInputFile | src/main/java/com/avygeil/jkaserverassetsminifier/AssetsRules.java:34-56 | `<keyword> <hash> <name>` is an InputFile directive. The name is the rest of the line and may hold spaces. |
| Rules.ClassifyWhitelist | src/main/java/com/avygeil/jkaserverassetsminifier/AssetsRules.java:36-58 | `<keyword> <pattern>` is an EntryWhitelist directive with the pattern as written. |
| Rules.ClassifyBlacklist | src/main/java/com/avygeil/jkaserverassetsminifier/AssetsRules.java:36-60 | `<keyword> <pattern>` is an EntryBlacklist directive with the pattern as written. |
| Text.FileName | src/main/java/com/avygeil/jkaserverassetsminifier/AssetsRules.java:53-54 | `Paths.get(token).getFileName()` for a non-empty token: the last name element, ignoring trailing slashes, or none (Java's null) when there is no name element. |
| Text.Resolve | src/main/java/com/avygeil/jkaserverassetsminifier/AssetsRules.java:54 | `outputFolder.toPath().resolve(name)` for a relative name: the name follows the folder and one separator, so the result ends in the name. |
| Rules.OutFileOfSpec | src/main/java/com/avygeil/jkaserverassetsminifier/AssetsRules.java:51-54 | For a non-empty token, the output file is the output folder resolved with the token's file-name element, a non-empty name without `/`. There is none exactly when the token is all slashes. |
| Text.FileNameSpec | src/main/java/com/avygeil/jkaserverassetsminifier/AssetsRules.java:53-54 | For a non-empty path, `getFileName` is null exactly when the path is made only of slashes. Otherwise it is a non-empty name without `/`. |
| Rules.OutFilenameError | src/main/java/com/avygeil/jkaserverassetsminifier/AssetsRules.java:51-54 | The exception the OutFilename branch raises for a token: `Paths.get` refuses a NUL character (InvalidOutFilename), `resolve` refuses the null file name of a token without one (RootOutFilename), and any other token raises nothing. |
| Rules.OutFilenameErrorSpec | src/main/java/com/avygeil/jkaserverassetsminifier/AssetsRules.java:51-54 | A non-empty token is invalid exactly when it holds a NUL character, is a root exactly when it is NUL-free and all slashes, and raises nothing exactly when it is NUL-free and holds a character other than `/`. |
| Rules.Apply | src/main/java/com/avygeil/jkaserverassetsminifier/AssetsRules.java:51-60 | The effect of one directive. An OutFilename replaces the output file or raises its token's error. An InputFile maps the lower-cased name to the lower-cased hash, overwriting. A list directive appends its pattern to its own list. A skipped line changes nothing. |
| Rules.Scan | src/main/java/com/avygeil/jkaserverassetsminifier/AssetsRules.java:31-62 | The parser loop: every directive applied in line order, starting from empty rules, the first exception ending the loop. |
| Rules.Parse | src/main/java/com/avygeil/jkaserverassetsminifier/AssetsRules.java:30-67 | The constructor's parse: `Scan` over the directives of all lines, then MissingOutFilename when no output file was set. |
| Rules.ScanFails | src/main/java/com/avygeil/jkaserverassetsminifier/AssetsRules.java:30-62 | Parsing the lines throws exactly when some OutFilename token holds a NUL character or has no file-name element; the error is then never MissingOutFilename. |
| Rules.ScanOutFile | src/main/java/com/avygeil/jkaserverassetsminifier/AssetsRules.java:51-54 | The last OutFilename directive determines the output file. With none, the initial value stays. |
| Rules.ScanFilterKeys | src/main/java/com/avygeil/jkaserverassetsminifier/AssetsRules.java:55-56 | The filter's keys are the lower-cased names of all InputFile directives. |
| Rules.ScanFilterValue | src/main/java/com/avygeil/jkaserverassetsminifier/AssetsRules.java:55-56 | A name maps to the lower-cased hash of the last InputFile directive for it, compared case-insensitively. |
| Rules.ScanLists | src/main/java/com/avygeil/jkaserverassetsminifier/AssetsRules.java:57-60 | Each list is the sequence of its directives' patterns, in line order. |
| Rules.WhitelistCount | src/main/java/com/avygeil/jkaserverassetsminifier/AssetsRules.java:57-58 | The whitelist has one pattern per EntryWhitelist directive. |
| Rules.BlacklistCount | src/main/java/com/avygeil/jkaserverassetsminifier/AssetsRules.java:59-60 | The blacklist has one pattern per EntryBlacklist directive. |
| Rules.IgnoredChangesNothing | src/main/java/com/avygeil/jkaserverassetsminifier/AssetsRules.java:40-61 | Removing an ignored directive anywhere does not change the result. |
| Rules.IgnoredLineChangesNothing | src/main/java/com/avygeil/jkaserverassetsminifier/AssetsRules.java:34-61 | Removing a line that classifies as ignored (wrong prefix, wrong token count, or empty) does not change the parse. |
| Rules.ParseSucceeds | src/main/java/com/avygeil/jkaserverassetsminifier/AssetsRules.java:30-67 | Parsing succeeds exactly when no OutFilename token throws and at least one OutFilename line exists. It fails with "no OutFilename" exactly when there is none. |
| Rules.ParseContents | src/main/java/com/avygeil/jkaserverassetsminifier/AssetsRules.java:30-67 | A successful parse holds the last OutFilename's output file, the InputFile names as filter keys, and both lists; the list sizes are the directive counts. |
| Rules.ScanPrefixFails | src/main/java/com/avygeil/jkaserverassetsminifier/AssetsRules.java:51-54 | Once a line throws, no later line matters and construction fails with that line's error. |
| Rules.HashBypass | src/main/java/com/avygeil/jkaserverassetsminifier/AssetsRules.java:91-102 | When the last InputFile line whose name equals the file's name, ignoring case, has the hash `0`, the file is accepted whatever its content. |
| Rules.AcceptInputFile | src/main/java/com/avygeil/jkaserverassetsminifier/AssetsRules.java:85-113 | Covers four cases. An empty filter accepts every file. A name that is not a key is rejected. A stored `0` accepts. Otherwise the file is accepted exactly when its bytes can be read and their md5 hex equals the stored hash, ignoring case. |
| Rules.AnyMatches | src/main/java/com/avygeil/jkaserverassetsminifier/AssetsRules.java:116-126 | The early-return scan returns true exactly when some pattern of the list matches the name. |
| Rules.AcceptEntryFilename | src/main/java/com/avygeil/jkaserverassetsminifier/AssetsRules.java:115-129 | A name is accepted exactly when no blacklist pattern matches it and some whitelist pattern does. A blacklist match always rejects. |
| Rules.SuffixRuleAccepts | src/main/java/com/avygeil/jkaserverassetsminifier/AssetsRules.java:115-129 | A whitelist rule `*<suffix>` accepts every name ending in the suffix that no blacklist pattern matches. |
| Wildcard.Matches | src/main/java/com/avygeil/jkaserverassetsminifier/AssetsRules.java:117 | `wildcardMatch(name, pattern, IOCase.INSENSITIVE)`: `*` matches any run of characters, `?` exactly one, and every other character itself up to ASCII case; the whole name must match. |
| Wildcard.LiteralMatches | src/main/java/com/avygeil/jkaserverassetsminifier/AssetsRules.java:117 | A pattern without wildcards matches exactly the names equal to it up to case. |
| Wildcard.StarSuffixOnly | src/main/java/com/avygeil/jkaserverassetsminifier/AssetsRules.java:123 | A name matching `*<suffix>` ends in the suffix up to case. |
| Wildcard.MatchesIgnoresCase | src/main/java/com/avygeil/jkaserverassetsminifier/AssetsRules.java:117 | Matching does not depend on the case of the name. |
| Rules.AssetsRules.ParseRulesFile | src/main/java/com/avygeil/jkaserverassetsminifier/AssetsRules.java:30-67 | The loop leaves the fields equal to the functional parse of the lines. It reports the same error when the parse fails. |
| Rules.AssetsRules.Create | src/main/java/com/avygeil/jkaserverassetsminifier/AssetsRules.java:26-28 | The constructor yields rules equal to `Parse` of the lines. It fails exactly when `Parse` fails, with the same error. |
| Rules.AssetsRules.GetOutFile | src/main/java/com/avygeil/jkaserverassetsminifier/AssetsRules.java:69-71 | The output file is that of the last OutFilename line. |
| Rules.AssetsRules.GetNumInputFileFilters | src/main/java/com/avygeil/jkaserverassetsminifier/AssetsRules.java:73-75 | The count is the number of distinct lower-cased InputFile names. |
| Rules.AssetsRules.GetNumWhitelistFilters | src/main/java/com/avygeil/jkaserverassetsminifier/AssetsRules.java:77-79 | The count is the number of EntryWhitelist lines. |
| Rules.AssetsRules.GetNumBlacklistFilters | src/main/java/com/avygeil/jkaserverassetsminifier/AssetsRules.java:81-83 | The count is the number of EntryBlacklist lines. |
| Rules.AssetsRules.Accept | src/main/java/com/avygeil/jkaserverassetsminifier/AssetsRules.java:131-134 | `accept(File)` is the input-file predicate. |
| Rules.AssetsRules.AcceptInFolder | src/main/java/com/avygeil/jkaserverassetsminifier/AssetsRules.java:136-139 | `accept(File, String)` is always false. |
| Rules.AssetsRules.Test | src/main/java/com/avygeil/jkaserverassetsminifier/AssetsRules.java:141-144 | `test` is the entry-name predicate. |
| Text.TrimSpec | src/main/java/com/avygeil/jkaserverassetsminifier/AssetsRules.java:44 | `trim` cuts out a middle part that starts and ends with a non-trimmed character. It drops only characters up to `' '`. |
| Text.SplitSpec | src/main/java/com/avygeil/jkaserverassetsminifier/AssetsRules.java:44 | The shape of the split: at most `max` tokens, each non-empty and starting with a non-space. All are space-free words, except possibly the max-th. |
| Text.SplitContent | src/main/java/com/avygeil/jkaserverassetsminifier/AssetsRules.java:44 | The line is the tokens in order, with runs of spaces before, between and after them, and at least one space between two neighbours. When the max-th token is reached, no space follows it. |
| Text.SplitRestOfLine | src/main/java/com/avygeil/jkaserverassetsminifier/AssetsRules.java:44 | When the split yields `max` tokens, the last one is the rest of the line: a suffix of it. |
| Text.SplitWord | src/main/java/com/avygeil/jkaserverassetsminifier/AssetsRules.java:44 | A word followed by a space or by nothing becomes the first token. |
| Text.SystemPath | src/main/java/com/avygeil/jkaserverassetsminifier/JKAServerAssetsMinifier.java:256 | `separatorsToSystem` with `/` as the system separator: the same length, with each `\` turned into `/` and every other character kept. |
| Text.LowerSystemPath | src/main/java/com/avygeil/jkaserverassetsminifier/JKAServerAssetsMinifier.java:256 | Lower-casing and separator normalisation commute. |
| Minifier.Staged | src/main/java/com/avygeil/jkaserverassetsminifier/JKAServerAssetsMinifier.java:240-253 | The staging folder after extracting the entries of an archive in order: each accepted entry that is not a directory writes its content to its staging path, overwriting. |
| Minifier.Stamped | src/main/java/com/avygeil/jkaserverassetsminifier/JKAServerAssetsMinifier.java:240-257 | The timestamp map after extracting the entries in order: each extracted entry that carries a time puts it under its lower-cased, normalised name, overwriting. |
| Minifier.ExtractedCount | src/main/java/com/avygeil/jkaserverassetsminifier/JKAServerAssetsMinifier.java:237-262 | The number of entries written to staging, at most the number of entries. |
| Minifier.ExtractedCountSpec | src/main/java/com/avygeil/jkaserverassetsminifier/JKAServerAssetsMinifier.java:237-262 | The extracted count is the number of entries the predicate accepts that are not directories. |
| Minifier.StagedKeys | src/main/java/com/avygeil/jkaserverassetsminifier/JKAServerAssetsMinifier.java:244-253 | Staging gains exactly the paths of the extracted entries. |
| Minifier.StagedLastWins | src/main/java/com/avygeil/jkaserverassetsminifier/JKAServerAssetsMinifier.java:244-253 | A path holds the content of the last extracted entry written to it. |
| Minifier.StagedUntouched | src/main/java/com/avygeil/jkaserverassetsminifier/JKAServerAssetsMinifier.java:240-253 | A path no extracted entry is written to keeps its earlier content, or stays absent. |
| Minifier.StampedLastWins | src/main/java/com/avygeil/jkaserverassetsminifier/JKAServerAssetsMinifier.java:254-257 | The key of an extracted entry — its lower-cased, normalised name — maps to its time. This holds unless a later extracted, timed entry has the same key. |
| Minifier.StampedUntouched | src/main/java/com/avygeil/jkaserverassetsminifier/JKAServerAssetsMinifier.java:171 | A key that no extracted, timed entry maps to keeps its earlier timestamp, or stays absent. The map persists across archives and runs. |
| Minifier.ExtractConcat | src/main/java/com/avygeil/jkaserverassetsminifier/JKAServerAssetsMinifier.java:204-210 | Extracting `a`, then `b`, is extracting `a + b`. The counts add up. |
| Minifier.RejectedChangesNothing | src/main/java/com/avygeil/jkaserverassetsminifier/JKAServerAssetsMinifier.java:240-247 | An entry that is rejected, or that is a directory, changes neither staging, the timestamp map nor the count. |
| Minifier.UntimedKeepsStamps | src/main/java/com/avygeil/jkaserverassetsminifier/JKAServerAssetsMinifier.java:254-257 | An extracted entry without a time leaves the timestamp map as it was. |
| Minifier.Selected | src/main/java/com/avygeil/jkaserverassetsminifier/JKAServerAssetsMinifier.java:182 | `listFiles` with the rules as file filter: the listed files the input-file predicate accepts, in listing order. |
| Minifier.SelectedSpec | src/main/java/com/avygeil/jkaserverassetsminifier/JKAServerAssetsMinifier.java:182 | The listing keeps exactly the files the input-file predicate accepts. |
| Minifier.SelectedDistinct | src/main/java/com/avygeil/jkaserverassetsminifier/JKAServerAssetsMinifier.java:182 | Selection keeps files whose names differ in more than case apart. |
| Minifier.CountCheck | src/main/java/com/avygeil/jkaserverassetsminifier/JKAServerAssetsMinifier.java:188-191 | With a non-empty filter, every selected name is a filter key. When listed names differ in more than case, the check passes exactly when every key names a selected file. |
| Minifier.FirstUnopenable | src/main/java/com/avygeil/jkaserverassetsminifier/JKAServerAssetsMinifier.java:206-214 | The first selected file that cannot be opened as an archive, if any. |
| Minifier.RepackEntry | src/main/java/com/avygeil/jkaserverassetsminifier/JKAServerAssetsMinifier.java:274-282 | The output entry of a staged file: named by its relative path, stamped from the timestamp map under its lower-cased path when the key is present, and holding the file's bytes, or none when reading them fails. |
| Minifier.IsRepackOf | src/main/java/com/avygeil/jkaserverassetsminifier/JKAServerAssetsMinifier.java:268-291 | The output archive holds one entry per staged file, with distinct names, each as `RepackEntry` says, in any order. |
| Minifier.RepackSize | src/main/java/com/avygeil/jkaserverassetsminifier/JKAServerAssetsMinifier.java:271-288 | A repack holds one entry per staged file. |
| Minifier.RepackStep | src/main/java/com/avygeil/jkaserverassetsminifier/JKAServerAssetsMinifier.java:273-282 | Writing one more staged file keeps the entries distinct and each one as the repack rule says. |
| Minifier.TimeRoundTrip | src/main/java/com/avygeil/jkaserverassetsminifier/JKAServerAssetsMinifier.java:254-278 | The repacked entry of a path carries the time of the last extracted, timed entry with that key. |
| Minifier.ContentRoundTrip | src/main/java/com/avygeil/jkaserverassetsminifier/JKAServerAssetsMinifier.java:251-282 | The repacked entry of a path carries the content of the last extracted entry written to it, unless the staged file cannot be read back. |
| Minifier.Minified | src/main/java/com/avygeil/jkaserverassetsminifier/JKAServerAssetsMinifier.java:179-229 | The outcome of `minify`. A failed count check or staging set-up changes nothing. An archive that cannot be opened leaves the earlier archives extracted in staging. Otherwise all archives are extracted, the opened output file holds `IsRepackOf` of staging, and staging is dropped; the timestamp map keeps its entries. |
| Minifier.MinifiedOnlyAccepted | src/main/java/com/avygeil/jkaserverassetsminifier/JKAServerAssetsMinifier.java:204-228 | After a completed run, every entry of the output archive is the staging path of an accepted file entry of a selected archive. |
| Minifier.MinifiedLastWins | src/main/java/com/avygeil/jkaserverassetsminifier/JKAServerAssetsMinifier.java:204-228 | After a completed run, the output archive carries the last accepted entry of each path: its content (unless unreadable) and its time. |
| Minifier.AssetsMinifier.constructor | src/main/java/com/avygeil/jkaserverassetsminifier/JKAServerAssetsMinifier.java:171-177 | A new minifier has an empty timestamp map, no staging folder and no output. |
| Minifier.AssetsMinifier.ExtractArchive | src/main/java/com/avygeil/jkaserverassetsminifier/JKAServerAssetsMinifier.java:231-266 | Staging, the timestamp map and the returned count become `Staged`, `Stamped` and `ExtractedCount` of the entries. An archive that cannot be opened changes nothing. |
| Minifier.AssetsMinifier.ExtractAll | src/main/java/com/avygeil/jkaserverassetsminifier/JKAServerAssetsMinifier.java:204-214 | The archives are extracted in order and the counts summed. The loop stops at the first archive that cannot be opened and keeps what was extracted before it. |
| Minifier.AssetsMinifier.ArchiveDirectory | src/main/java/com/avygeil/jkaserverassetsminifier/JKAServerAssetsMinifier.java:268-291 | The output is one entry per staged file, with distinct names. Each entry is stamped from the timestamp map under its lower-cased path when the key is present. Its content is empty when the file cannot be read. |
| Minifier.AssetsMinifier.Run | src/main/java/com/avygeil/jkaserverassetsminifier/JKAServerAssetsMinifier.java:188-228 | The step from the state before to the state after is the one `Minified` describes. |
| Minifier.AssetsMinifier.Minify | src/main/java/com/avygeil/jkaserverassetsminifier/JKAServerAssetsMinifier.java:179-229 | The run follows `Minified` on four paths. A failed count check does nothing. A failed staging set-up does nothing. A failed extraction leaves a partial staging folder. A completed run repacks staging into the rules' output file and drops staging. |

## Left out

- Case folding covers ASCII letters only. Java's `toLowerCase` and `equalsIgnoreCase` are Unicode- and locale-aware.
- `FilenameUtils.wildcardMatch` is replaced by an own case-insensitive `*`/`?` glob. Its exact edge cases are not mirrored.
- `DigestUtils.md5Hex` is a parameter (`md5Hex`) with no properties.
- Paths follow POSIX rules with `/` as the separator.
  - `separatorsToSystem` and `Path.toString` are modelled as one normalisation (`SystemPath`, which maps `\` to `/`), used for the staging path and for the timestamp key alike.
  - On a real system a backslash inside an entry name may stay a literal character of the staged file name.
  - `Paths.get` refuses only the NUL character, as on POSIX systems. Other platforms' path rules are not modelled.
- Text.FileName: the empty path, whose file name is the empty path itself, is modelled as having none. Split tokens are never empty, so the parser never asks.
- Path normalisation (`..`, `.`, absolute entry names) and entries that would escape the staging folder are not modelled.
- The staging folder is a flat map from relative path to bytes. Directories are not modelled, and neither are the clashes between a file and a directory of the same name.
- Minifier.AssetsMinifier.ExtractArchive: failures while reading or writing a single entry are not modelled. Only an archive that cannot be opened at all aborts the extraction.
- Minifier.AssetsMinifier.Minify: a failed `cleanDirectory` after a successful `forceMkdir` is modelled as no change, although a partly emptied folder may remain on disk.
- Minifier.AssetsMinifier.Minify: `outputOk` says whether it can be opened, and a failure there leaves the written archives unchanged. Errors while closing the archive are not modelled.
- ZIP timestamps keep millisecond values. The DOS time precision of `setTime` is not modelled.
- The listing order of `listFiles` is taken as given (the `inputFiles` sequence). The order of `iterateFiles` is not modelled: the repack is specified up to order.
- `extractedFiles` and `extractedEntries` are unbounded; the 32-bit int overflow is not modelled.
- Not modelled:
  - logging to standard output;
  - the command line (`main`);
  - `readResourceLines`;
  - `getFolderFromString` and `isPathDirectory`;
  - `deleteQuietly`'s own failures (the staging folder is always dropped).
- Minifier.CountCheck: assumes that no two listed names differ only in case. On a case-sensitive file system two such files can both be selected, and the check then passes with a key unmatched.
