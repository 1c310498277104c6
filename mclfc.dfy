/** The pure decisions inside the command-line program `src/mclfc.ts`: which
    parsed entries are compared, which comparison records are reported under
    the `--differences` and `--untranslated` options, how each record is
    highlighted on the console, and the lines of the report file. */
module Report {
  import opened Wrappers
  import opened Seqs
  import opened Text
  import opened Entries

  // ---------------------------------------------------------------------
  // Entries handed to the comparison

  predicate IsNotComment(e: Entry)
  {
    !e.IsComment()
  }

  predicate IsKeyValue(e: Entry)
  {
    e.KeyValue?
  }

  /** The entries of one file that take part in the comparison: the parsed
      entries without empty lines and without comments. All of them are
      key/value entries with a non-empty key, and every key/value entry of
      the file is among them. */
  function DiffInput(content: string): (entries: seq<Entry>)
    ensures forall i :: 0 <= i < |entries| ==>
      && entries[i].KeyValue?
      && entries[i].key != [] && '=' !in entries[i].key && entries[i].key[0] != '#'
      && entries[i] in ParseToEntries(content)
    ensures forall e :: e in ParseToEntries(content) && e.KeyValue? ==> e in entries
  {
    ParsedEntryShape(content);
    Filter(DropEmptyLines(ParseToEntries(content)), IsNotComment)
  }

  /** The entries compared are exactly the key/value lines of the file, in file order. */
  lemma DiffInputInFileOrder(content: string)
    ensures DiffInput(content) == Filter(ParseToEntries(content), IsKeyValue)
  {
    var entries := ParseToEntries(content);
    ParsedEntryShape(content);
    FilterFilter(entries, NotEmptyLine, IsNotComment, IsKeyValue);
  }

  // ---------------------------------------------------------------------
  // Selecting records

  /** The two command-line switches that narrow the report. */
  datatype Options = Options(differences: bool, untranslated: bool)

  /** Kept by `--differences`: the lines differ or a value is missing. */
  predicate ShownWithDifferences(d: DiffLine)
  {
    d.IsDifferentLine() || d.HasEitherNullValue()
  }

  /** Kept by `--untranslated`: a value is missing and the second file has no line. */
  predicate ShownAsUntranslated(d: DiffLine)
  {
    d.HasEitherNullValue() && d.l2 < 0
  }

  /** The rebinding of `diffed`: `--differences` wins over `--untranslated`,
      and with neither switch every record is reported. */
  function SelectRecords(diffed: seq<DiffLine>, opts: Options): (r: seq<DiffLine>)
    ensures |r| <= |diffed|
    ensures forall i :: 0 <= i < |r| ==> r[i] in diffed
    ensures opts.differences ==>
      && (forall i :: 0 <= i < |r| ==> r[i].IsDifferentLine() || r[i].HasEitherNullValue())
      && (forall i :: 0 <= i < |diffed| && (diffed[i].IsDifferentLine() || diffed[i].HasEitherNullValue()) ==> diffed[i] in r)
    ensures !opts.differences && opts.untranslated ==>
      && (forall i :: 0 <= i < |r| ==> r[i].HasEitherNullValue() && r[i].l2 < 0)
      && (forall i :: 0 <= i < |diffed| && diffed[i].HasEitherNullValue() && diffed[i].l2 < 0 ==> diffed[i] in r)
    ensures !opts.differences && !opts.untranslated ==> r == diffed
  {
    if opts.differences then Filter(diffed, ShownWithDifferences)
    else if opts.untranslated then Filter(diffed, ShownAsUntranslated)
    else diffed
  }

  /** Selection works record by record, so reported records keep their order. */
  lemma SelectRecordsKeepsOrder(a: seq<DiffLine>, b: seq<DiffLine>, opts: Options)
    ensures SelectRecords(a + b, opts) == SelectRecords(a, opts) + SelectRecords(b, opts)
  {
    FilterConcat(a, b, ShownWithDifferences);
    FilterConcat(a, b, ShownAsUntranslated);
  }

  /** Selecting again with the same switches changes nothing. */
  lemma SelectRecordsIdempotent(diffed: seq<DiffLine>, opts: Options)
    ensures SelectRecords(SelectRecords(diffed, opts), opts) == SelectRecords(diffed, opts)
  {
    FilterIdempotent(diffed, ShownWithDifferences);
    FilterIdempotent(diffed, ShownAsUntranslated);
  }

  /** With `--differences` set, `--untranslated` has no effect. */
  lemma DifferencesTakesPrecedence(diffed: seq<DiffLine>, untranslated: bool)
    ensures SelectRecords(diffed, Options(true, untranslated)) == SelectRecords(diffed, Options(true, false))
  {
  }

  /** The untranslated report is the differences report narrowed further. */
  lemma UntranslatedWithinDifferences(diffed: seq<DiffLine>)
    ensures SelectRecords(diffed, Options(false, true))
         == Filter(SelectRecords(diffed, Options(true, false)), ShownAsUntranslated)
  {
    FilterFilter(diffed, ShownWithDifferences, ShownAsUntranslated, ShownAsUntranslated);
  }

  // ---------------------------------------------------------------------
  // Console highlighting

  /** The console highlight of a record: yellow, red background, green
      background, or none. */
  datatype Display = LineMismatch | Untranslated | NotInOriginal | Plain

  /** The highlight chosen for each record, the first matching test winning:
      a different line, then a missing value with no line in the second
      file, then a missing value with no line in the first file. */
  function Classify(d: DiffLine): (c: Display)
    ensures c == LineMismatch <==> d.l1 != d.l2
    ensures c == Untranslated <==> d.l1 == d.l2 && d.l2 < 0 && d.HasEitherNullValue()
    ensures c == Plain <==> d.l1 == d.l2 && (d.l2 >= 0 || !d.HasEitherNullValue())
  {
    if d.IsDifferentLine() then LineMismatch
    else if d.HasEitherNullValue() && d.l2 < 0 then Untranslated
    else if d.HasEitherNullValue() && d.l1 < 0 then NotInOriginal
    else Plain
  }

  /** Because `isDifferentLine` is plain inequality, the third test can only
      be reached with equal lines, where it repeats the second: no record is
      ever shown as missing from the first file. */
  lemma ClassifyNeverNotInOriginal(d: DiffLine)
    ensures Classify(d) != NotInOriginal
  {
  }

  /** The sentinel convention for comparison records. The record fields
      document only one direction: a missing side has an `undefined` value
      and line -1. The converse (a value is absent only when its line is -1)
      and the clause that the key is present in at least one file are
      assumptions about the output of `diff`, which yields one record per key
      found in either file. */
  predicate FollowsSentinels(d: DiffLine)
  {
    && (d.v1.None? <==> d.l1 == -1) && d.l1 >= -1
    && (d.v2.None? <==> d.l2 == -1) && d.l2 >= -1
    && (d.v1.Some? || d.v2.Some?)
  }

  /** Under that convention a record present in only one file is always
      shown as a line mismatch, so the untranslated highlight is never used. */
  lemma ClassifyOneSidedAsWritten(d: DiffLine)
    requires FollowsSentinels(d)
    ensures d.HasEitherNullValue() ==> Classify(d) == LineMismatch
    ensures Classify(d) != Untranslated
  {
  }

  /** A key present in the original only, at line 3: shown as a line mismatch. */
  lemma ClassifyUntranslatedExample()
    ensures FollowsSentinels(DiffLine("k", Some("v"), 3, None, -1))
    ensures Classify(DiffLine("k", Some("v"), 3, None, -1)) == LineMismatch
  {
  }

  /** Lines that are both present and unequal. */
  predicate BothLinesDiffer(d: DiffLine)
  {
    d.l1 >= 0 && d.l2 >= 0 && d.l1 != d.l2
  }

  /** The same priority chain with "different line" restricted to records
      present on both sides. */
  function ClassifyIntended(d: DiffLine): (c: Display)
    ensures c == LineMismatch ==> d.l1 >= 0 && d.l2 >= 0
    ensures c == Untranslated ==> d.l2 < 0 && d.HasEitherNullValue()
    ensures c == NotInOriginal ==> d.l1 < 0 && d.l2 >= 0 && d.HasEitherNullValue()
  {
    if BothLinesDiffer(d) then LineMismatch
    else if d.HasEitherNullValue() && d.l2 < 0 then Untranslated
    else if d.HasEitherNullValue() && d.l1 < 0 then NotInOriginal
    else Plain
  }

  /** With the corrected test, each kind of record gets its own highlight:
      missing from the second file, missing from the first file, present in
      both at different lines, present in both at the same line. */
  lemma ClassifyIntendedKinds(d: DiffLine)
    requires FollowsSentinels(d)
    ensures ClassifyIntended(d) == Untranslated <==> d.v1.Some? && d.v2.None?
    ensures ClassifyIntended(d) == NotInOriginal <==> d.v1.None? && d.v2.Some?
    ensures ClassifyIntended(d) == LineMismatch <==> d.v1.Some? && d.v2.Some? && d.l1 != d.l2
    ensures ClassifyIntended(d) == Plain <==> d.v1.Some? && d.v2.Some? && d.l1 == d.l2
  {
  }

  /** The two classifications agree on every record present in both files,
      and the correction leaves the `--differences` selection unchanged. */
  lemma ClassifyIntendedAgrees(diffed: seq<DiffLine>)
    requires forall i :: 0 <= i < |diffed| ==> FollowsSentinels(diffed[i])
    ensures forall i :: 0 <= i < |diffed| && !diffed[i].HasEitherNullValue() ==>
      ClassifyIntended(diffed[i]) == Classify(diffed[i])
    ensures Filter(diffed, ShownWithDifferences) == Filter(diffed, ShownWithDifferencesIntended)
  {
    FilterCongruent(diffed, ShownWithDifferences, ShownWithDifferencesIntended);
  }

  predicate ShownWithDifferencesIntended(d: DiffLine)
  {
    BothLinesDiffer(d) || d.HasEitherNullValue()
  }

  // ---------------------------------------------------------------------
  // The report file

  /** The report file's lines: the header, then one `toString` line per record. */
  function FileLines(header: string, diffed: seq<DiffLine>): (out: seq<string>)
    ensures |out| == |diffed| + 1
    ensures out[0] == header
    ensures forall i :: 0 <= i < |diffed| ==> out[i + 1] == diffed[i].ToString()
  {
    [header] + seq(|diffed|, i requires 0 <= i < |diffed| => diffed[i].ToString())
  }

  /** Building `out` as the source does: map every record to its text, then
      `unshift` the header onto that array. It computes FileLines and is
      kept only to mirror that in-place update step by step. */
  method BuildFileOutput(header: string, diffed: seq<DiffLine>) returns (out: seq<string>)
    ensures out == FileLines(header, diffed)
  {
    out := seq(|diffed|, i requires 0 <= i < |diffed| => diffed[i].ToString());
    out := [header] + out;
  }

  /** The joined file has `|records| + 1` lines when no text holds a line break. */
  lemma FileTextLineCount(header: string, diffed: seq<DiffLine>)
    requires '\n' !in header
    requires forall i :: 0 <= i < |diffed| ==>
      '\n' !in diffed[i].tag && '\n' !in ValueField(diffed[i].v1) && '\n' !in ValueField(diffed[i].v2)
    ensures SplitOn(Join(FileLines(header, diffed), '\n'), '\n') == FileLines(header, diffed)
    ensures |SplitOn(Join(FileLines(header, diffed), '\n'), '\n')| == |diffed| + 1
  {
    var out := FileLines(header, diffed);
    forall i | 0 <= i < |out| ensures '\n' !in out[i] {
      if i > 0 {
        var d := diffed[i - 1];
        LineFieldHasNoTab(d.l1);
        LineFieldHasNoTab(d.l2);
        JoinAvoids([d.tag, ValueField(d.v1), LineField(d.l1), ValueField(d.v2), LineField(d.l2)], '\t', '\n');
      }
    }
    SplitJoin(out, '\n');
  }
}
