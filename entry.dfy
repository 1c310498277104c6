/** The line parser of `src/entry.ts`: raw `.lang` / `.properties` text becomes
    one tagged entry per physical line, plus the per-key comparison record
    `DiffLine` with its two predicates and its tab-separated rendering. */
module Entries {
  import opened Wrappers
  import opened Seqs
  import opened Text

  /** One line of a property file. The source has one class `Entry` with a
      `tag`/`value` pair and a subclass `EmptyLine`; here the three kinds it
      distinguishes are three variants. `line` is the zero-based line index. */
  datatype Entry =
    | Comment(text: string, line: nat)
    | KeyValue(key: string, value: string, line: nat)
    | EmptyLine(line: nat)
  {
    /** `contents.tag`: "#" for a comment, the key for an entry, "" for an empty line. */
    function ContentTag(): string
    {
      match this
      case Comment(_, _) => "#"
      case KeyValue(key, _, _) => key
      case EmptyLine(_) => ""
    }

    /** `contents.value`: the stripped comment text, the entry's value, or "". */
    function ContentValue(): string
    {
      match this
      case Comment(text, _) => text
      case KeyValue(_, value, _) => value
      case EmptyLine(_) => ""
    }

    /** `is_comment`, which the constructor sets from the tag. */
    predicate IsComment()
    {
      ContentTag() == "#"
    }
  }

  // ---------------------------------------------------------------------
  // Splitting into lines

  /** `content.split(/\r?\n|\r/)`: the pieces between line endings, where a
      `\r\n` pair is one ending and a lone `\r` or `\n` is another. */
  function SplitLines(content: string): (lines: seq<string>)
    ensures |lines| >= 1
    ensures forall i :: 0 <= i < |lines| ==> '\n' !in lines[i] && '\r' !in lines[i]
    decreases |content|
  {
    if content == [] then [""]
    else if content[0] == '\n' then [""] + SplitLines(content[1..])
    else if content[0] == '\r' then
      if |content| >= 2 && content[1] == '\n' then [""] + SplitLines(content[2..])
      else [""] + SplitLines(content[1..])
    else
      var rest := SplitLines(content[1..]);
      [[content[0]] + rest[0]] + rest[1..]
  }

  /** The text with every `\r\n` and every remaining `\r` replaced by `\n`:
      the reference against which SplitLines is specified. */
  function NormalizeLineEndings(s: string): (r: string)
    ensures '\r' !in r
    decreases |s|
  {
    if s == [] then []
    else if s[0] == '\r' then
      if |s| >= 2 && s[1] == '\n' then "\n" + NormalizeLineEndings(s[2..])
      else "\n" + NormalizeLineEndings(s[1..])
    else [s[0]] + NormalizeLineEndings(s[1..])
  }

  /** Splitting on the three line-ending forms is splitting the normalised text on `\n`. */
  lemma {:induction false} SplitLinesNormalized(content: string)
    ensures SplitLines(content) == SplitOn(NormalizeLineEndings(content), '\n')
    decreases |content|
  {
    if content == [] {
    } else if content[0] == '\n' {
      SplitLinesNormalized(content[1..]);
      var n := NormalizeLineEndings(content[1..]);
      assert NormalizeLineEndings(content) == "\n" + n;
      assert ("\n" + n)[1..] == n;
    } else if content[0] == '\r' {
      var k := if |content| >= 2 && content[1] == '\n' then 2 else 1;
      SplitLinesNormalized(content[k..]);
      var n := NormalizeLineEndings(content[k..]);
      assert NormalizeLineEndings(content) == "\n" + n;
      assert ("\n" + n)[1..] == n;
    } else {
      SplitLinesNormalized(content[1..]);
      var n := NormalizeLineEndings(content[1..]);
      assert NormalizeLineEndings(content) == [content[0]] + n;
      assert ([content[0]] + n)[1..] == n;
    }
  }

  /** Text without `\r` is its own normal form. */
  lemma {:induction false} NormalizeWithoutCarriageReturn(s: string)
    requires '\r' !in s
    ensures NormalizeLineEndings(s) == s
    decreases |s|
  {
    if s != [] {
      NormalizeWithoutCarriageReturn(s[1..]);
      assert [s[0]] + s[1..] == s;
    }
  }

  /** Lines without line-ending characters, joined with `\n`, split back into the same lines. */
  lemma SplitLinesJoin(lines: seq<string>)
    requires |lines| >= 1
    requires forall i :: 0 <= i < |lines| ==> '\n' !in lines[i] && '\r' !in lines[i]
    ensures SplitLines(Join(lines, '\n')) == lines
  {
    JoinAvoids(lines, '\n', '\r');
    NormalizeWithoutCarriageReturn(Join(lines, '\n'));
    SplitLinesNormalized(Join(lines, '\n'));
    SplitJoin(lines, '\n');
  }

  // ---------------------------------------------------------------------
  // Classifying one line

  /** The run of space characters at the front of `s` removed. */
  function DropSpaces(s: string): (r: string)
    ensures |r| <= |s| && r == s[|s| - |r|..]
    ensures forall i :: 0 <= i < |s| - |r| ==> s[i] == ' '
    ensures r == [] || r[0] != ' '
    decreases |s|
  {
    if s != [] && s[0] == ' ' then DropSpaces(s[1..]) else s
  }

  /** The line with what the pattern `^# *` matches replaced by nothing: a
      leading `#` and the run of spaces right after it are removed; a line
      that does not start with `#` is unchanged. */
  function StripCommentMarker(line: string): (r: string)
    ensures |line| > 0 && line[0] == '#' ==>
      && |r| < |line|
      && r == line[|line| - |r|..]
      && (forall i :: 1 <= i < |line| - |r| ==> line[i] == ' ')
      && (r == [] || r[0] != ' ')
    ensures !(|line| > 0 && line[0] == '#') ==> r == line
  {
    if |line| > 0 && line[0] == '#' then DropSpaces(line[1..]) else line
  }

  /** `__parse_line__`: a line starting with `#` is a comment; otherwise a
      line whose first `=` is at an index above 0 is split there into key and
      value; every other line, `=value` included, is an empty line. */
  function ParseLine(line: string, lineof: nat): (e: Entry)
    ensures e.line == lineof
    ensures e.Comment? <==> |line| > 0 && line[0] == '#'
    ensures e.IsComment() <==> |line| > 0 && line[0] == '#'
    ensures e.Comment? ==> e.text == StripCommentMarker(line)
    ensures e.KeyValue? <==> |line| > 0 && line[0] != '#' && line[0] != '=' && '=' in line
    ensures e.KeyValue? ==> e.key != [] && '=' !in e.key && e.key + "=" + e.value == line
    ensures e.EmptyLine? <==> (|line| == 0 || line[0] != '#') && ('=' !in line || line[0] == '=')
  {
    var eq := IndexOf(line, '=');
    if |line| > 0 && line[0] == '#' then
      Comment(StripCommentMarker(line), lineof)
    else if 0 < eq then
      assert line == line[..eq] + "=" + line[eq + 1..];
      KeyValue(line[..eq], line[eq + 1..], lineof)
    else
      EmptyLine(lineof)
  }

  /** Key/value round trip: a key that is non-empty, has no `=` and does not
      start with `#`, written as `key=value`, parses back to that key and value. */
  lemma ParseKeyValueLine(key: string, value: string, lineof: nat)
    requires key != [] && key[0] != '#' && '=' !in key
    ensures ParseLine(key + "=" + value, lineof) == KeyValue(key, value, lineof)
  {
    var line := key + "=" + value;
    assert line[|key|] == '=';
    var eq := IndexOf(line, '=');
    assert eq <= |key|;
    assert line[eq + 1..] == value;
  }

  lemma {:induction false} DropSpacesPrefix(k: nat, text: string)
    requires text == [] || text[0] != ' '
    ensures DropSpaces(Repeat(' ', k) + text) == text
    decreases k
  {
    if k > 0 {
      assert (Repeat(' ', k) + text)[1..] == Repeat(' ', k - 1) + text;
      DropSpacesPrefix(k - 1, text);
    } else {
      assert Repeat(' ', k) + text == text;
    }
  }

  /** Comment round trip: `#`, any number of spaces, then a text that does
      not start with a space, parses to a comment holding exactly that text. */
  lemma ParseCommentLine(spaces: nat, text: string, lineof: nat)
    requires text == [] || text[0] != ' '
    ensures ParseLine("#" + Repeat(' ', spaces) + text, lineof) == Comment(text, lineof)
  {
    var line := "#" + Repeat(' ', spaces) + text;
    assert line[1..] == Repeat(' ', spaces) + text;
    DropSpacesPrefix(spaces, text);
  }

  /** Three examples: `#  comment` loses the marker and
      the whole run of spaces, `=value` is an empty line, and `key=a=b`
      splits at the first `=` only. */
  lemma ParseLineExamples()
    ensures ParseLine("#  comment", 0) == Comment("comment", 0)
    ensures ParseLine("=value", 1) == EmptyLine(1)
    ensures ParseLine("key=a=b", 2) == KeyValue("key", "a=b", 2)
  {
    ParseCommentLine(2, "comment", 0);
    assert "#" + Repeat(' ', 2) + "comment" == "#  comment";
    ParseKeyValueLine("key", "a=b", 2);
    assert "key" + "=" + "a=b" == "key=a=b";
  }

  // ---------------------------------------------------------------------
  // Whole texts

  /** `parseToEntries`: one entry per line, the i-th line parsed with index i. */
  function ParseToEntries(content: string): (entries: seq<Entry>)
    ensures |entries| == |SplitLines(content)| >= 1
    ensures forall i :: 0 <= i < |entries| ==> entries[i].line == i
    ensures forall i :: 0 <= i < |entries| ==> entries[i] == ParseLine(SplitLines(content)[i], i)
  {
    var lines := SplitLines(content);
    seq(|lines|, i requires 0 <= i < |lines| => ParseLine(lines[i], i))
  }

  /** There is exactly one entry per line: one more than the number of line
      endings, where a `\r\n` pair counts once. */
  lemma EntryCount(content: string)
    ensures |ParseToEntries(content)| == 1 + multiset(NormalizeLineEndings(content))['\n']
  {
    SplitLinesNormalized(content);
    SplitOnCount(NormalizeLineEndings(content), '\n');
  }

  /** Lines joined with `\n` are parsed one by one, in order, each with its index. */
  lemma ParseJoinedLines(lines: seq<string>)
    requires |lines| >= 1
    requires forall i :: 0 <= i < |lines| ==> '\n' !in lines[i] && '\r' !in lines[i]
    ensures |ParseToEntries(Join(lines, '\n'))| == |lines|
    ensures forall i :: 0 <= i < |lines| ==> ParseToEntries(Join(lines, '\n'))[i] == ParseLine(lines[i], i)
  {
    SplitLinesJoin(lines);
  }

  /** Every parsed entry is a comment exactly when its tag says so, and every
      parsed key/value entry has a non-empty key without `=` that does not
      start with `#` (so no key/value entry is tagged "#"). */
  lemma ParsedEntryShape(content: string)
    ensures forall e :: e in ParseToEntries(content) ==>
      && (e.IsComment() <==> e.Comment?)
      && (e.KeyValue? ==> e.key != [] && '=' !in e.key && e.key[0] != '#')
  {
    var entries := ParseToEntries(content);
    var lines := SplitLines(content);
    forall e | e in entries
      ensures e.IsComment() <==> e.Comment?
      ensures e.KeyValue? ==> e.key != [] && '=' !in e.key && e.key[0] != '#'
    {
      var i :| 0 <= i < |entries| && entries[i] == e;
      assert e == ParseLine(lines[i], i);
      if e.KeyValue? {
        assert e.key[0] == (e.key + "=" + e.value)[0];
      }
    }
  }

  /** The texts of an entry contain no line-ending character. */
  predicate SingleLine(e: Entry)
  {
    && '\n' !in e.ContentTag() && '\n' !in e.ContentValue()
    && '\r' !in e.ContentTag() && '\r' !in e.ContentValue()
  }

  /** A line without line-ending characters yields an entry whose texts have none. */
  lemma ParseLineSingleLine(line: string, lineof: nat)
    requires '\n' !in line && '\r' !in line
    ensures SingleLine(ParseLine(line, lineof))
  {
    var e := ParseLine(line, lineof);
    if e.KeyValue? {
      assert line == e.key + "=" + e.value;
    }
  }

  lemma ParsedEntriesSingleLine(content: string)
    ensures forall e :: e in ParseToEntries(content) ==> SingleLine(e)
  {
    var entries := ParseToEntries(content);
    var lines := SplitLines(content);
    forall e | e in entries
      ensures SingleLine(e)
    {
      var i :| 0 <= i < |entries| && entries[i] == e;
      ParseLineSingleLine(lines[i], i);
    }
  }

  predicate NotEmptyLine(e: Entry)
  {
    !e.EmptyLine?
  }

  /** `dropEmptyLines`: the entries that are not empty lines. */
  function DropEmptyLines(entries: seq<Entry>): (kept: seq<Entry>)
    ensures |kept| <= |entries|
    ensures forall i :: 0 <= i < |kept| ==> !kept[i].EmptyLine? && kept[i] in entries
    ensures forall i :: 0 <= i < |entries| && !entries[i].EmptyLine? ==> entries[i] in kept
  {
    Filter(entries, NotEmptyLine)
  }

  /** Dropping works line by line, so the kept entries keep their order. */
  lemma DropEmptyLinesOrder(a: seq<Entry>, b: seq<Entry>, e: Entry)
    ensures DropEmptyLines(a + b) == DropEmptyLines(a) + DropEmptyLines(b)
    ensures DropEmptyLines([e]) == if e.EmptyLine? then [] else [e]
  {
    FilterConcat(a, b, NotEmptyLine);
    assert [e][1..] == [];
  }

  /** Entries without empty lines are kept as they are; hence dropping is idempotent. */
  lemma DropEmptyLinesIdempotent(entries: seq<Entry>)
    ensures DropEmptyLines(DropEmptyLines(entries)) == DropEmptyLines(entries)
    ensures (forall i :: 0 <= i < |entries| ==> !entries[i].EmptyLine?) ==> DropEmptyLines(entries) == entries
  {
    FilterIdempotent(entries, NotEmptyLine);
    if forall i :: 0 <= i < |entries| ==> !entries[i].EmptyLine? {
      FilterAll(entries, NotEmptyLine);
    }
  }

  // ---------------------------------------------------------------------
  // toRawText

  /** The largest line index of a non-empty entry list (`Math.max`). */
  function MaxLine(entries: seq<Entry>): (m: nat)
    requires |entries| > 0
    ensures forall i :: 0 <= i < |entries| ==> entries[i].line <= m
    ensures exists i :: 0 <= i < |entries| && entries[i].line == m
    decreases |entries|
  {
    if |entries| == 1 then entries[0].line
    else
      var rest := MaxLine(entries[1..]);
      if entries[0].line >= rest then entries[0].line else rest
  }

  /** The text after the line number: nothing for an empty line, `tag=value` otherwise. */
  function EntryText(e: Entry): string
  {
    if e.EmptyLine? then "" else e.ContentTag() + "=" + e.ContentValue()
  }

  function RawLine(e: Entry, width: nat): string
  {
    ZeroPad(e.line, width) + ": " + EntryText(e)
  }

  /** `toRawText`: one line per entry, `NN: tag=value`, joined with `\n`,
      each line number zero-padded to the digit count of the largest. An
      empty list renders as "": the width the source derives from
      `Math.max()` of nothing is never used, so it is 0 here. */
  function ToRawText(entries: seq<Entry>): (text: string)
    ensures entries == [] ==> text == ""
  {
    var width := if entries == [] then 0 else |Decimal(MaxLine(entries))|;
    Join(seq(|entries|, i requires 0 <= i < |entries| => RawLine(entries[i], width)), '\n')
  }

  /** The rendering has one line per entry, in order; each starts with the
      entry's line number as exactly `width` digits, then `: ` and the entry's text. */
  lemma RawTextLines(entries: seq<Entry>)
    requires |entries| > 0
    requires forall i :: 0 <= i < |entries| ==> SingleLine(entries[i])
    ensures var width := |Decimal(MaxLine(entries))|;
      var lines := SplitOn(ToRawText(entries), '\n');
      && |lines| == |entries|
      && forall i :: 0 <= i < |entries| ==>
        && |lines[i]| >= width + 2
        && AllDigits(lines[i][..width])
        && DecimalValue(lines[i][..width]) == entries[i].line
        && lines[i][width..] == ": " + EntryText(entries[i])
  {
    var width := |Decimal(MaxLine(entries))|;
    var raw := seq(|entries|, i requires 0 <= i < |entries| => RawLine(entries[i], width));
    forall i | 0 <= i < |entries|
      ensures '\n' !in raw[i]
      ensures |raw[i]| >= width + 2
      ensures AllDigits(raw[i][..width]) && DecimalValue(raw[i][..width]) == entries[i].line
      ensures raw[i][width..] == ": " + EntryText(entries[i])
    {
      DecimalLengthMonotone(entries[i].line, MaxLine(entries));
      RawLineShape(entries[i], width);
    }
    SplitJoin(raw, '\n');
  }

  lemma RawLineShape(e: Entry, width: nat)
    requires |Decimal(e.line)| <= width
    requires SingleLine(e)
    ensures var r := RawLine(e, width);
      && '\n' !in r
      && |r| >= width + 2
      && AllDigits(r[..width]) && DecimalValue(r[..width]) == e.line
      && r[width..] == ": " + EntryText(e)
  {
    ZeroPadExact(e.line, width);
    var pad := ZeroPad(e.line, width);
    assert '\n' !in pad by {
      forall j | 0 <= j < |pad| ensures pad[j] != '\n' {
        assert IsDigit(pad[j]);
      }
    }
    assert '\n' !in EntryText(e);
    var r := RawLine(e, width);
    assert r == pad + (": " + EntryText(e));
    assert r[..width] == pad;
  }

  // ---------------------------------------------------------------------
  // DiffLine

  /** One per-key comparison record. An absent value is `None` (the source's
      `undefined`); an absent line is -1. */
  datatype DiffLine = DiffLine(tag: string, v1: Option<string>, l1: int, v2: Option<string>, l2: int)
  {
    /** `isDifferentLine`: plain inequality of the two line numbers. */
    predicate IsDifferentLine()
    {
      l1 != l2
    }

    /** `hasEitherNullValue`: a value is absent on either side. */
    predicate HasEitherNullValue()
    {
      v1.None? || v2.None?
    }

    /** `toString`: the five fields joined by tabs. */
    function ToString(): string
    {
      Join([tag, ValueField(v1), LineField(l1), ValueField(v2), LineField(l2)], '\t')
    }
  }

  /** `v || ''`: an absent value (and the empty string) shows as "". */
  function ValueField(v: Option<string>): string
  {
    match v
    case None => ""
    case Some(s) => s
  }

  /** `l >= 0 ? l : ''`: the line number in decimal, or "" for the sentinel. */
  function LineField(l: int): string
  {
    if l >= 0 then Decimal(l) else ""
  }

  /** A record present on one side only (line -1 there, a real line on the
      other) always counts as a different line. */
  lemma OneSidedIsDifferentLine(d: DiffLine)
    requires (d.l1 == -1 && d.l2 >= 0) || (d.l1 >= 0 && d.l2 == -1)
    ensures d.IsDifferentLine()
  {
  }

  /** Splitting `toString` at tabs gives back the five fields when tag and
      values hold no tab: the tag, each value or "" when absent, and each
      line number (read back as a number) or "" for the sentinel. */
  lemma ToStringFields(d: DiffLine)
    requires '\t' !in d.tag && '\t' !in ValueField(d.v1) && '\t' !in ValueField(d.v2)
    ensures var f := SplitOn(d.ToString(), '\t');
      && |f| == 5
      && f[0] == d.tag
      && f[1] == (if d.v1.Some? then d.v1.value else "")
      && f[3] == (if d.v2.Some? then d.v2.value else "")
      && (d.l1 < 0 ==> f[2] == "")
      && (d.l1 >= 0 ==> AllDigits(f[2]) && DecimalValue(f[2]) == d.l1)
      && (d.l2 < 0 ==> f[4] == "")
      && (d.l2 >= 0 ==> AllDigits(f[4]) && DecimalValue(f[4]) == d.l2)
  {
    LineFieldHasNoTab(d.l1);
    LineFieldHasNoTab(d.l2);
    var parts := [d.tag, ValueField(d.v1), LineField(d.l1), ValueField(d.v2), LineField(d.l2)];
    SplitJoin(parts, '\t');
    if d.l1 >= 0 { DecimalRoundTrip(d.l1); }
    if d.l2 >= 0 { DecimalRoundTrip(d.l2); }
  }

  lemma LineFieldHasNoTab(l: int)
    ensures '\t' !in LineField(l) && '\n' !in LineField(l)
  {
    if l >= 0 {
      var s := Decimal(l);
      forall j | 0 <= j < |s| ensures s[j] != '\t' && s[j] != '\n' {
        assert IsDigit(s[j]);
      }
    }
  }
}
