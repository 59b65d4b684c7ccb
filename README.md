# releasekit changelog ledger, modelled in Dafny

releasekit cuts a release of a Go repository. Its only real logic is the
changelog ledger in `CHANGELOG.md`:

- `ModifyChangelog` takes each `## <version> (Unreleased)` header and dates it: `## <version> (<Month> <Day>, <Year>)`. It returns the version it released.
- `SetNewVersion` bumps one part of that version. It then re-opens the bumped version at the top of the file.
- `main` runs the two around git, `go mod tidy` and goreleaser.

The ledger lives in `changelog.go`, and again verbatim in `main.go:299-426`. The `main.go` copy is the `changelog.go` code shifted by 274 lines. This model covers it once.

The model is organised by module:

- `Text` (text.dfy):
  - the line structure `bufio.Reader.ReadLine` reads (`Lines`, with "\n" and "\r\n" stripped) and `fmt.Fprintln` writes (`Unlines`);
  - `strings.Split` and `strings.Join` on ".".
- `Numbers` (numbers.dfy):
  - `strconv.Itoa`;
  - `strconv.Atoi` on a 64-bit target, with its error dropped. Its digit loop runs left to right. A non-digit reached first is a syntax error and gives 0. Digits that pass 2^64-1 first end the loop with a range error, and the value saturates whatever follows;
  - Go's wrapping 64-bit `n++`.
- `Header` (header.dfy):
  - the header pattern `^##.*?Unreleased\)$` as the predicate `IsUnreleasedHeader`;
  - the version pattern `[0-9]*\.[0-9]*\.[0-9]*` as the greedy, leftmost search `FindFrom`/`VersionIn`, proved to be the leftmost-longest match;
  - the release date;
  - `LogGenerator`, with today's date as a parameter.
- `Bump` (bump.dfy): the version arithmetic of `SetNewVersion` and the `MAINVER/SUBVER/STAGEVER` constants.
- `Files` (filestore.dfy):
  - a class `FileStore` holding the directory as a map from file name to contents;
  - a fixed `FaultPlan` saying which create, open, read, write, remove and rename calls fail.
- `Changelog` (changelog.dfy):
  - the methods `ModifyChangelog` (with its read loop `RewriteLines` and its flush step `Flush`) and `SetNewVersion`;
  - each is proved to leave the directory and return exactly what the functions `Release` and `Advance` say;
  - the lemmas state what those functions promise.
- `Workflow` (workflow.dfy): `main`'s sequence as the method `ReleaseCycle`, proved against the function `Cycle`. The git, tidy, build and `./dist` steps are caller-supplied verdicts.

Where a reader might expect otherwise, the model follows the code:

- Every line that matches the header pattern is dated, not only the first. The version returned is the one read from the last match, or "" when nothing matches.
- `SetNewVersion` does not re-read a version from the file. It bumps the version it is given, writes the new header and "\n", and then writes the whole old file. No blank line goes between them.
- `SetNewVersion` truncates and rewrites the file in place, without a temporary file.
- `ModifyChangelog` removes the original before renaming the temporary file. A failed rename therefore leaves the contents only in `CHANGELOG.md.tmp`.
- A part of the version that Atoi rejects with a syntax error counts as 0. It is not reported. A part whose leading digits overflow counts as the saturated value even when a non-digit follows, so `99999999999999999999a` is bumped to `-9223372036854775808`.
- The seed header `## 1.0.0 (Unreleased)` is written undated. So the first run leaves two Unreleased headers. The next run dates both and returns 1.0.0 again, because that is the version of the last header.

## Model

| member | source | states |
|---|---|---|
| Text.SplitJoin | changelog.go:127-131 | splitting the join of dot-free parts gives back exactly those parts |
| Text.JoinSplit | changelog.go:127-131 | joining the parts of any split gives back the text |
| Text.LinesOfUnlines | changelog.go:76-90 | lines written one by one with "\n", none holding "\n" or ending in "\r", are read back by ReadLine unchanged |
| Text.UnlinesOfLines | changelog.go:76-90 | a text without "\r" that is empty or ends in "\n" is written back byte for byte when its lines are copied |
| Text.LinesChars | changelog.go:76 | no line ReadLine returns holds "\n"; without "\r" in the file, every line is rereadable and free of "\r" |
| Numbers.AtoiOfItoa | changelog.go:128-130 | Atoi reads back exactly the number Itoa wrote, for every 64-bit value |
| Numbers.ItoaShape | changelog.go:130 | Itoa writes digits with at most a leading minus sign and no leading zero |
| Header.FindFrom | changelog.go:118-119 | the match found starts at the first position where the pattern matches, and none matches before it; with no result, none matches anywhere |
| Header.MatchEndSound | changelog.go:118-119 | what the greedy match covers is a version text, and no digit follows it |
| Header.MatchEndExact | changelog.go:118-119 | a version text not followed by a digit is exactly what the match at its start finds |
| Header.MatchEndCovers | changelog.go:118-119 | every version text starting at a position lies within the greedy match there |
| Header.VersionInIsLeftmostLongest | changelog.go:118-119 | the version found is the leftmost-longest version text of the line, and is "" exactly when the line holds none |
| Header.VersionInFrame | changelog.go:118-119 | in a line made of a prefix free of digits and dots, a version and a suffix not starting with a digit, that version is found |
| Header.LogGenerator | changelog.go:111-124 | for "" it gives an Unreleased header and 1.0.0; for a line it gives a header that is not Unreleased and a version that is "" or a version text |
| Header.LogGeneratorDates | changelog.go:118-123 | the line written is `## <v> (<date>)` for the version v found; v is "" exactly when no version text occurs; otherwise v is the leftmost-longest match |
| Header.LogGeneratorSeed | changelog.go:114-117 | LogGenerator("") writes the seed header, itself an Unreleased header, and returns the seed version |
| Header.SeedLiterals | changelog.go:115-116 | the seed version is "1.0.0" and its header "## 1.0.0 (Unreleased)" |
| Header.SeedShape | changelog.go:115 | the seed version is a version text of three parts |
| Header.DatedHeaderIsNotUnreleased | changelog.go:121-123 | a dated header never matches the Unreleased pattern |
| Header.UnreleasedHeaderIsHeader | changelog.go:140 | the header written for any version without "\n" matches the Unreleased pattern |
| Header.VersionOfUnreleasedHeader | changelog.go:140 | reading the version back from the Unreleased header of major.minor.patch gives major.minor.patch |
| Header.VersionOfHeader | changelog.go:123 | reading the version back from `## major.minor.patch (<note>)` gives major.minor.patch |
| Header.FormatDateChars | changelog.go:121 | the date holds no line terminator |
| Header.DatedHeaderChars | changelog.go:123 | the dated header of a version without line terminators is a rereadable line without "\r" |
| Bump.BumpKeepsOtherParts | changelog.go:127-131 | the bumped version has as many parts; part `mode` is Itoa of Atoi plus one; every other part is unchanged |
| Bump.BumpTriple | changelog.go:127-131 | bumping major.minor.patch below the 64-bit maximum raises exactly the chosen part by one and resets nothing |
| Numbers.AtoiByPrefix | changelog.go:128 | Atoi gives 0 exactly on a syntax error: no digits after the sign, or a non-digit before the digits pass 2^64-1; otherwise it gives the signed value of the leading digits saturated to 64 bits |
| Numbers.ParseDigitsByPrefix | changelog.go:128 | the digit loop overflows when the digits before the first non-digit denote more than 2^64-1; otherwise it reports a syntax error exactly when a non-digit follows them |
| Bump.BumpNonNumeric | changelog.go:128-130 | a part Atoi rejects with a syntax error becomes "1" |
| Bump.BumpOverflow | changelog.go:128-130 | a part whose leading digits exceed 2^64-1 becomes the 64-bit minimum whatever follows; with a minus sign it becomes the minimum plus one |
| Bump.BumpWraps | changelog.go:129-130 | a part at the 64-bit maximum becomes the 64-bit minimum |
| Bump.BumpChars | changelog.go:127-131 | the bump introduces no character beyond digits, "-" and the dots already there |
| Files.StreamOf | changelog.go:76-83 | a read delivers a prefix of the file, and the whole file when it ends in io.EOF |
| Files.Accepted | changelog.go:146-147 | a write stores at most what it was given, and fewer bytes exactly when the write limit cuts it short |
| Files.FileStore.Exists | changelog.go:37-38 | reports exactly whether the file is present |
| Files.FileStore.Create | changelog.go:40-44 | the file becomes empty unless creating it fails, and nothing else changes |
| Files.FileStore.Open | changelog.go:49-53 | succeeds exactly when the file exists and opening does not fail, and then delivers its stream |
| Files.FileStore.OpenForWrite | changelog.go:141-145 | an existing file is truncated unless the open fails |
| Files.FileStore.Write | changelog.go:146-150 | appends the accepted prefix of the data and reports its length |
| Files.FileStore.Remove | changelog.go:98-102 | the file disappears unless removing it fails |
| Files.FileStore.Rename | changelog.go:103-107 | the target takes the source's contents and the source disappears, unless the rename fails |
| Changelog.ModifyChangelog | changelog.go:25-109 | the directory afterwards and the result are exactly those of Release on the directory before |
| Changelog.RewriteLines | changelog.go:75-91 | the text written is ReleasedText of the bytes read, and the version is that of the last Unreleased header |
| Changelog.Flush | changelog.go:93-108 | the flush, remove and rename leave the directory and result Publish describes |
| Changelog.RewriteStep | changelog.go:85-90 | one more line appends its rewritten form and "\n"; the version changes exactly when the line is an Unreleased header |
| Changelog.ReleaseRewritesHeaders | changelog.go:85-90 | as many lines come out as go in; each Unreleased header becomes the dated header of its version; every other line is copied unchanged in place |
| Changelog.ReleasedHasNoUnreleased | changelog.go:85-90 | no line written by the rewrite is an Unreleased header |
| Changelog.LastVersionOfLastHeader | changelog.go:85-88 | the version returned is that of the last Unreleased header in the file |
| Changelog.LastVersionNoHeader | changelog.go:85-88 | without an Unreleased header the version returned is "" |
| Changelog.LastVersionShape | changelog.go:85-88 | the version returned is "" or a version text of three parts |
| Changelog.ReleaseVersionShape | changelog.go:25-109 | a successful release returns "" or a version text of three parts |
| Changelog.PublishReliable | changelog.go:93-108 | with no failure, the output replaces the changelog and the temporary file is gone |
| Changelog.ReleaseOfAbsentFile | changelog.go:37-73 | a missing changelog ends up holding only "## 1.0.0 (Unreleased)\n", and 1.0.0 is returned |
| Changelog.ReleaseOfExistingFile | changelog.go:48-108 | an existing changelog is replaced by its rewritten text, and the version of its last Unreleased header is returned |
| Changelog.ReleaseFailure | changelog.go:93-107 | no other file changes; every failure before the rename leaves the original changelog intact; a failed rename removes the changelog and leaves the whole rewritten text (the seed header and "\n" for a new file) in the temporary file; success removes the temporary file |
| Changelog.ReleaseWithoutHeader | changelog.go:75-91 | with no Unreleased header: the lines are copied, "" is returned, and a file without "\r" ending in "\n" is unchanged byte for byte |
| Changelog.ReleaseLineChars | changelog.go:85-90 | a rewritten line stays rereadable and free of "\r" |
| Changelog.ReleaseIdempotent | changelog.go:75-91 | for a file without "\r": the released text reads back as the rewritten lines; releasing it again writes the same text and returns "" |
| Changelog.SetNewVersion | changelog.go:126-152 | the directory afterwards and the result are exactly those of Advance on the directory before |
| Changelog.AdvancePrepends | changelog.go:139-151 | with no failure, the file becomes the header of the bumped version, then "\n", then the whole old file |
| Changelog.AdvanceFailure | changelog.go:133-150 | only the changelog changes; a failed open leaves it unchanged; a failed write leaves a strict prefix of the new contents; success writes the header in front of what was read |
| Changelog.AdvanceAddsOneHeader | changelog.go:140 | the new header is an Unreleased header read back as the first line, so the file holds one more Unreleased header |
| Workflow.ReleaseCycle | main.go:61-118 | the directory and outcome of main's sequence are exactly those of Cycle |
| Workflow.CycleSucceeds | main.go:61-118 | when the release and the re-open succeed and so do the external steps, the run finishes with the released version and the re-opened file |
| Workflow.NextVersionLiteral | main.go:102 | the version a first run re-opens is "1.0.1" |
| Workflow.FreshCycle | main.go:61-118 | with no changelog and no failure, the run releases 1.0.0 and leaves "## 1.0.1 (Unreleased)\n## 1.0.0 (Unreleased)\n" |
| Workflow.FreshChangelogHeaders | main.go:102 | that changelog reads as two lines, both Unreleased headers |
| Workflow.TwoHeaders | changelog.go:64 | two headers written one after another read back as two Unreleased headers |
| Workflow.SteadyCycle | main.go:61-118 | when the last Unreleased header names major.minor.patch and nothing fails, the run releases that version and leaves the header of major.minor.(patch+1) on top of the released file |
| Workflow.ReleaseOfLastHeader | changelog.go:85-108 | a release returns the version named by the last Unreleased header |
| Workflow.AdvanceOfTriple | main.go:102 | re-opening major.minor.patch puts the header of major.minor.(patch+1) on top of the file |
| Workflow.CycleLeavesOneHeader | main.go:61-102 | on a file without "\r", the release followed by the re-open leaves exactly one Unreleased header |
| Workflow.NoHeaderCycle | main.go:61-102 | a changelog with no Unreleased header is rewritten, "" is released, and the run stops on indexing the part of "" with index 2 |
| Workflow.CycleGuarantees | main.go:61-118 | a finished run released a three-part version text; the ledger steps change no file but the changelog and its temporary file |
| Workflow.SecondReleaseRepeatsSeed | main.go:299-383 | releasing the changelog a first run leaves returns 1.0.0 again |

## Left out

- I/O beyond the directory map is not modelled. The 4096-byte buffering of `bufio.Writer` is not modelled either: a flush stores a prefix of the output and then fails.
- `ReadLine` splits lines longer than its buffer into several pieces (`isPrefix`). The model reads each line whole. This matters only for lines over 4096 bytes.
- The text of the error and log messages is not modelled, including the flush message's "tmp" without the dot. The model keeps only the failing step.
- The regular expressions are compiled from constants, so their compile error cannot happen. That branch is not modelled.
- A stat error in `utils.PathExists` is folded into "absent", as the code then takes the `os.Create` branch.
- `time.Now` is the parameter `today`. The wall clock is not modelled.
- The unsafe byte-to-string casts are ordinary conversions, and one character stands for one byte.
- Unicode is not modelled, since every literal matched is ASCII.
- `defer Close` and the file handles left open are not modelled. Neither is crash behaviour between steps.
- Git, `go mod tidy`, goreleaser, config loading, logging, `Mkdir`/`Chdir` and `os.RemoveAll("./dist")` are not modelled. Each external step is a boolean verdict in `Collaborators`.
- Workflow.CycleGuarantees: its frame covers the ledger steps only. `go mod tidy` rewrites go.mod and go.sum, goreleaser writes ./dist, and `os.RemoveAll("./dist")` deletes it. These are verdicts that touch no file in the model, so the frame says nothing about them.
- Faults are planned per file name, not per call. The `os.Open` of ModifyChangelog and the one of SetNewVersion share `openFails`. So `Cycle` cannot express a changelog that opens for the release and then fails to open for the re-open.
- Atoi, Increment and BumpWraps assume a 64-bit target. On 32-bit targets Go's `int` saturates and wraps at 2^31-1, and the model does not cover that.
- Changelog.SetNewVersion: the panic of `strs[mode]` when the version has too few parts is a precondition here. `Workflow.Cycle` models that panic as the outcome `Stopped(IndexOutOfRange)`.
- Changelog.SetNewVersion: the check `num < 1` cannot fail separately, because the new contents are never empty. It is kept as written.
