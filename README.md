# MCLFC line parser and report rules, in Dafny

MCLFC compares two Minecraft `.lang` / `.properties` files key by key: an
original and its translation. This project models its core:

- the line parser of `src/entry.ts`. Raw text is split on `\r\n`, `\n` or
  `\r`. Each line becomes one entry: a comment (tag `#`), a key/value entry
  split at the first `=` (which must not be the first character), or an
  empty line. Empty lines can be dropped. A list of entries can be rendered
  with zero-padded line numbers (`toRawText`). The module also has the
  per-key comparison record `DiffLine`, with its two predicates and its
  tab-separated rendering;
- the pure decisions inside `main` in `src/mclfc.ts`: which entries are
  compared, which records the `--differences` and `--untranslated` switches
  keep, how the console highlights each record, and the lines of the report
  file;
- the array helpers `dropFirst` and `dropLast` of `src/util.ts`. They copy an
  array and `splice` one element out of the copy. When the target is absent
  the index is -1, so the last element is removed.

Modules (one file each): `Wrappers` (Option), `Seqs` (the `filter`,
`indexOf` and `lastIndexOf` built-ins), `Text` (decimal text, zero padding,
join and split), `Entries` (`src/entry.ts`), `Report` (`src/mclfc.ts`),
`ArrayUtil` (`src/util.ts`).

`entry.ts` is pure, so it is modelled with datatypes and functions. `Entry`
has three variants: `Comment`, `KeyValue` and `EmptyLine`. `ContentTag()`,
`ContentValue()` and `IsComment()` give the source's `contents.tag`,
`contents.value` and `is_comment`. A comment's tag is `#`, as in the source,
so `toRawText` renders a comment as `#=text`. The two regular expressions are
replaced by explicit functions: `SplitLines` for the line split and
`StripCommentMarker` for removing `^# *`. `SplitLines` is specified against
an independent reference: normalise the line endings, then split on `\n`.

`util.ts` is imperative. `DropFirst` and `DropLast` are methods that take an
`array` and return a fresh one. The functions `DroppedFirst` and
`DroppedLast` specify the contents they return, and the lemmas state what
those contents are.

Details of the code that the model keeps as they are:

- `isDifferentLine` is plain inequality `l1 != l2`, so a record present on
  one side only (line -1 there) counts as a different line.
- `--untranslated` keeps the records with a missing value and `l2 < 0`.
- `toString` prints the stored zero-based line numbers.
- A comment is an entry whose tag is `#`.

## Model

| member | source | states |
|---|---|---|
| `Entries.SplitLines` | src/entry.ts:4 | splitting never fails: there is at least one line, and no line contains `\r` or `\n` |
| `Entries.SplitLinesNormalized` | src/entry.ts:4 | splitting on the three line endings equals splitting on `\n` after turning every `\r\n` and every lone `\r` into `\n`, so `\r\n` counts as one separator |
| `Entries.SplitLinesJoin` | src/entry.ts:86 | lines without line-ending characters, joined with `\n`, split back into exactly those lines |
| `Entries.StripCommentMarker` | src/entry.ts:97 | for a line starting with `#`, the result is a proper suffix of the line; what was removed is the `#` and spaces only; the result does not start with a space. Other lines are unchanged |
| `Entries.ParseLine` | src/entry.ts:94-104 | the entry carries the given line index. It is a comment iff the line starts with `#`, and `is_comment` holds iff the line starts with `#`. It is a key/value entry iff the line does not start with `#` or `=` and contains `=`; then the key is non-empty, has no `=`, and key + `=` + value is the line. Otherwise it is an empty line |
| `Entries.ParseKeyValueLine` | src/entry.ts:95-102 | round trip: `key=value`, with a non-empty key that has no `=` and does not start with `#`, parses to exactly that key and value |
| `Entries.ParseCommentLine` | src/entry.ts:96-98 | round trip: `#`, any run of spaces, then a text not starting with a space, parses to a comment holding exactly that text |
| `Entries.ParseLineExamples` | src/entry.ts:94-104 | `#  comment` gives comment `comment`; `=value` gives an empty line; `key=a=b` gives key `key` and value `a=b` |
| `Entries.ParseToEntries` | src/entry.ts:85-88 | parsing is total: one entry per split line, in order, entry i has line index i |
| `Entries.EntryCount` | src/entry.ts:85-88 | the number of entries is one more than the number of line endings, counting `\r\n` once |
| `Entries.ParseJoinedLines` | src/entry.ts:85-88 | text made of lines joined by `\n` parses to exactly one entry per line, each line parsed with its own index |
| `Entries.ParsedEntryShape` | src/entry.ts:14-17 | in parsed text, `is_comment` holds exactly for comments, and no key/value entry has tag `#`: its key is non-empty, has no `=` and does not start with `#` |
| `Entries.ParsedEntriesSingleLine` | src/entry.ts:85-88 | no tag or value of a parsed entry contains `\n` or `\r` |
| `Entries.DropEmptyLines` | src/entry.ts:90-92 | the result holds no empty line, only entries of the input, and every input entry that is not an empty line |
| `Entries.DropEmptyLinesOrder` | src/entry.ts:90-92 | dropping distributes over concatenation and keeps a single non-empty entry, so the kept entries keep their order |
| `Entries.DropEmptyLinesIdempotent` | src/entry.ts:90-92 | dropping twice is dropping once, and a list without empty lines is returned unchanged |
| `Entries.MaxLine` | src/entry.ts:107 | the result is the largest line index of a non-empty list: an upper bound that one entry reaches |
| `Entries.RawLineShape` | src/entry.ts:108-109 | a rendered line starts with exactly `width` digits that read back as the entry's line index, followed by `: ` and then `tag=value`, or nothing for an empty line |
| `Entries.ToRawText` | src/entry.ts:106-111 | an empty list renders as the empty text, since mapping no entries and joining them gives `""` |
| `Entries.RawTextLines` | src/entry.ts:106-111 | `toRawText` has one line per entry, in order. Each line number is zero-padded to the digit count of the largest line index and reads back as that entry's index |
| `Entries.OneSidedIsDifferentLine` | src/entry.ts:62-64 | a record with line -1 on one side and a real line on the other is a "different line" |
| `Entries.ToStringFields` | src/entry.ts:70-72 | when the tag and values hold no tab, `toString` splits at tabs into five fields: the tag; each value, or `""` when absent; each line number, which reads back as the number when it is not negative and is `""` otherwise |
| `Text.Decimal` | src/entry.ts:107 | the text of a number is non-empty, all digits, and has no leading zero unless the number is 0 |
| `Text.DecimalRoundTrip` | src/entry.ts:71 | reading the decimal text of `n` back gives `n` |
| `Text.ZeroPadExact` | src/entry.ts:108 | `('0'.repeat(w) + n).slice(-w)`, for `n` with at most `w` digits, is `n` left-padded with zeros to exactly `w` digits and still denotes `n` |
| `Text.SplitJoin` | src/entry.ts:110 | splitting a `join` of separator-free parts gives the parts back |
| `Seqs.Filter` | src/entry.ts:91 | `filter` keeps only elements of the input that pass the predicate, and keeps every element that passes |
| `Seqs.IndexOf` | src/util.ts:2 | `indexOf` is -1 iff the target is absent; otherwise it is the position of the target with no earlier occurrence |
| `Seqs.LastIndexOf` | src/util.ts:9 | `lastIndexOf` is -1 iff the target is absent; otherwise it is the position of the target with no later occurrence |
| `Report.DiffInput` | src/mclfc.ts:42-43 | the compared entries are all key/value entries from the parsed file, with non-empty keys that hold no `=` and do not start with `#`; every key/value entry of the file is among them |
| `Report.DiffInputInFileOrder` | src/mclfc.ts:42-43 | dropping empty lines and then comments leaves exactly the key/value entries, in file order |
| `Report.SelectRecords` | src/mclfc.ts:45-50 | with `differences`, the result is exactly the records with a different line or a missing value. With only `untranslated`, it is exactly the records with a missing value and `l2 < 0`. With neither switch, the records are unchanged |
| `Report.SelectRecordsKeepsOrder` | src/mclfc.ts:46-50 | selection distributes over concatenation, so the selected records keep their original order |
| `Report.SelectRecordsIdempotent` | src/mclfc.ts:46-50 | selecting again with the same switches changes nothing |
| `Report.DifferencesTakesPrecedence` | src/mclfc.ts:46-48 | with `differences` set, the `untranslated` switch has no effect |
| `Report.UntranslatedWithinDifferences` | src/mclfc.ts:46-49 | the untranslated selection equals the differences selection filtered again by the untranslated test |
| `Report.Classify` | src/mclfc.ts:67-72 | a record is highlighted as a line mismatch iff `l1 != l2`. It is untranslated iff the lines are equal, `l2 < 0` and a value is missing. It is plain iff the lines are equal and either `l2 >= 0` or no value is missing |
| `Report.ClassifyNeverNotInOriginal` | src/mclfc.ts:68-70 | the third test (missing value with `l1 < 0`) is never reached: it repeats the second one once the lines are equal |
| `Report.ClassifyOneSidedAsWritten` | src/mclfc.ts:68-69 | for records where an absent value goes with line -1 (and only then) and whose key is present in at least one file, every record with a missing value is shown as a line mismatch, and none is shown as untranslated |
| `Report.ClassifyUntranslatedExample` | src/mclfc.ts:68 | a key only in the original, at line 3, is shown as a line mismatch |
| `Report.ClassifyIntended` | src/mclfc.ts:67-72 | corrected chain: a line mismatch needs both lines present. Untranslated needs `l2 < 0` and a missing value. Missing-from-original needs `l1 < 0`, `l2 >= 0` and a missing value |
| `Report.ClassifyIntendedKinds` | src/mclfc.ts:67-72 | with the corrected chain, each kind of record gets its own highlight. Missing from the translation is untranslated; missing from the original is not-in-original; present in both at different lines is a mismatch; present in both at the same line is plain |
| `Report.ClassifyIntendedAgrees` | src/mclfc.ts:46-47 | for records that follow the sentinel convention (a value is absent exactly when its line is -1, and the key is present in at least one file), the corrected classification agrees with the written one on records present in both files, and the correction leaves the `--differences` selection unchanged |
| `Report.FileLines` | src/mclfc.ts:61-62 | the report has the header first and then one `toString` line per record: one line more than there are records |
| `Report.BuildFileOutput` | src/mclfc.ts:61-62 | mapping every record to its text and then `unshift`-ing the header gives those lines |
| `Report.FileTextLineCount` | src/mclfc.ts:61-64 | the joined file text splits back into those lines, so the file has one line more than there are records |
| `ArrayUtil.SpliceOne` | src/util.ts:4 | `splice(start, 1)` with the clamped start inside the array removes exactly the element there and keeps the others in order, so the multiset loses that one element; with the clamped start at the end nothing changes |
| `ArrayUtil.CopyAndSplice` | src/util.ts:3-4 | a fresh array holding the copy with `splice(start, 1)` applied |
| `ArrayUtil.DropFirst` | src/util.ts:1-6 | a fresh array holding `DroppedFirst`; the argument is unchanged |
| `ArrayUtil.DropLast` | src/util.ts:8-13 | a fresh array holding `DroppedLast`; the argument is unchanged |
| `ArrayUtil.DropFirstPresent` | src/util.ts:1-6 | a present target loses exactly its first occurrence; every other element stays, in order, and the multiset shrinks by that one target |
| `ArrayUtil.DropLastPresent` | src/util.ts:8-13 | a present target loses exactly its last occurrence; every other element stays, in order, and the multiset shrinks by that one target |
| `ArrayUtil.DropAbsent` | src/util.ts:2-4 | with the target absent and the array non-empty, both helpers remove the last element |
| `ArrayUtil.DropLength` | src/util.ts:4 | an empty array stays empty; otherwise both results are one element shorter |
| `ArrayUtil.DropSingleOccurrence` | src/util.ts:1-13 | with a single occurrence of the target, `dropFirst` and `dropLast` give the same result |

## Findings

| source | as written | input that shows it | evidently intended | confidence | as-written member | corrected member |
|---|---|---|---|---|---|---|
| src/mclfc.ts:68-70 | the console highlight tests `isDifferentLine`, which is `l1 !== l2`, before the tests for missing values. A record present in only one file has line -1 on that side, so it is always yellow. The red (untranslated) branch is only reached when both lines are negative. The green (not in original) branch is never reached | `DiffLine("k", Some("v"), 3, None, -1)`, a key only in the original: shown as a line mismatch instead of untranslated (`Report.ClassifyUntranslatedExample`) | "different line" should apply only to records present in both files, so that keys missing from the translation are red and keys missing from the original are green, as the help text of `--differences` and the three highlight colours suggest | medium, not executed | `Report.Classify` | `Report.ClassifyIntended` |

The corrected classifier is not used anywhere else in the model. The
`--differences` selection gives the same records with either test for
records that follow the sentinel convention (`Report.ClassifyIntendedAgrees`).
The claim that the red branch is never used assumes the convention in full
(`Report.FollowsSentinels`), in particular that every record's key is present
in at least one file: a record with both values absent and both lines -1
would be shown as untranslated.

## Left out

- `DiffLine.diff` is called at src/mclfc.ts:45 but is not part of this model: no definition of it is available. The records it produces are an input to `Report.SelectRecords`. `Report.FollowsSentinels` states the convention that the records are assumed to follow. The record field comments at src/entry.ts:34-52 give only one direction: a missing side has an `undefined` value and line -1. The converse (a value is absent only when its line is -1) and the clause that the key is present in at least one file are assumptions about the output of `diff`, taken to be one record per key found in either file.
- Command-line handling in src/mclfc.ts is left out because it is I/O or a call into a library. This covers `commander` option parsing, `fs.existsSync`/`readFileSync`/`writeFileSync`, `path.basename`/`resolve` and `console.log`. The header row, built from file names, is a parameter. The colours of `colors/safe` are left out; `Report.Display` names the four highlights instead.
- src/langdiff.ts (argument checks only) and src/errors.ts (exception classes; `CouldNotParse` is never raised) are not part of this model.
- The unused regular expression `pattern` at src/entry.ts:3 is dead code.
- The debug `toString` of `Entry` and `EmptyLine` (src/entry.ts:20-22, 82) and the `isEmpty` method are left out. The `instanceof EmptyLine` checks become the `EmptyLine` variant.
- `Entries.RawTextLines` is stated for non-empty lists only. The empty list renders as `""`, which `Entries.ToRawText` states; the `-Infinity` that the source computes there as `Math.max()` of nothing is never used, so the model takes a width of 0.
- `ArrayUtil.CopyAndSplice`: `splice` shrinks the copied JavaScript array in place. A Dafny array has a fixed length, so the model allocates the shorter fresh array directly and does not model the intermediate full-length copy.
- `Seqs.IndexOf` and `Seqs.LastIndexOf` model JavaScript's strict equality as Dafny equality. The case of `NaN`, which never equals itself, is not modelled.
- Line numbers are unbounded integers. JavaScript numbers are doubles, which are exact only below 2^53.
- `Entries.ToStringFields`: `v || ''` shows an empty-string value the same way as an absent one, so the rendering cannot tell them apart. The lemma states the field as "the value, or `""` when absent".
