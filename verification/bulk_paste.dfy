/** The browser client's `parseBulk`: text pasted from a spreadsheet (tab
    separated) or typed by hand (`;` or `,` separated), one item per line,
    columns title, status, owner. */
module BulkPaste {
  import opened Options
  import opened Strings
  import opened Seqs
  import opened Entities

  datatype PastedRow = PastedRow(title: string, status: string, owner: string)

  function DropTrailingCR(piece: string): string
  {
    if |piece| > 0 && piece[|piece| - 1] == '\r' then piece[..|piece| - 1] else piece
  }

  /** `text.split(/\r?\n/)`: every line feed ends a line, and a carriage
      return right before it belongs to the line break, not to the line. */
  function Lines(text: string): (lines: seq<string>)
    ensures |lines| >= 1
    ensures forall k :: 0 <= k < |lines| ==> '\n' !in lines[k]
  {
    var pieces := Split(text, '\n');
    var n := |pieces|;
    assert forall k :: 0 <= k < n - 1 ==> '\n' !in DropTrailingCR(pieces[k]) by {
      forall k | 0 <= k < n - 1 ensures '\n' !in DropTrailingCR(pieces[k]) {
        assert '\n' !in pieces[k];
      }
    }
    Map(pieces[..n - 1], DropTrailingCR) + [pieces[n - 1]]
  }

  lemma LinesFromPieces(text: string)
    ensures var p := Split(text, '\n');
      Lines(text) == Map(p[..|p| - 1], DropTrailingCR) + [p[|p| - 1]]
  {
  }

  lemma KeepsLinesWithoutCR(ls: seq<string>)
    requires |ls| >= 1
    requires forall k :: 0 <= k < |ls| - 1 ==> DropTrailingCR(ls[k]) == ls[k]
    ensures Map(ls[..|ls| - 1], DropTrailingCR) + [ls[|ls| - 1]] == ls
  {
    var n := |ls|;
    var m := Map(ls[..n - 1], DropTrailingCR);
    assert m == ls[..n - 1];
    assert ls[..n - 1] + [ls[n - 1]] == ls;
  }

  /** Lines joined with bare line feeds are read back as they were. */
  lemma LfRoundTrip(ls: seq<string>)
    requires |ls| >= 1
    requires forall k :: 0 <= k < |ls| ==> '\n' !in ls[k]
    requires forall k :: 0 <= k < |ls| - 1 ==> DropTrailingCR(ls[k]) == ls[k]
    ensures Lines(Join(ls, '\n')) == ls
  {
    SplitJoin(ls, '\n');
    LinesFromPieces(Join(ls, '\n'));
    KeepsLinesWithoutCR(ls);
  }

  /** Lines joined with CR LF, as a spreadsheet copies them, are read back as
      they were: the carriage returns never reach the lines. */
  lemma CrLfRoundTrip(ls: seq<string>)
    requires |ls| >= 1
    requires forall k :: 0 <= k < |ls| ==> '\n' !in ls[k]
    ensures Lines(Join(Map(ls[..|ls| - 1], (l: string) => l + ['\r']) + [ls[|ls| - 1]], '\n')) == ls
  {
    var n := |ls|;
    var pieces := Map(ls[..n - 1], (l: string) => l + ['\r']) + [ls[n - 1]];
    forall k | 0 <= k < |pieces| ensures '\n' !in pieces[k] {
      if k < n - 1 {
        assert pieces[k] == ls[k] + ['\r'];
      }
    }
    SplitJoin(pieces, '\n');
    LinesFromPieces(Join(pieces, '\n'));
    var lines := Lines(Join(pieces, '\n'));
    forall k | 0 <= k < n ensures lines[k] == ls[k] {
      if k < n - 1 {
        assert pieces[k] == ls[k] + ['\r'];
        assert DropTrailingCR(pieces[k]) == ls[k];
      }
    }
  }

  predicate NotBlank(l: string)
  {
    l != ""
  }

  /** `.map(l => l.trim()).filter(Boolean)`: the trimmed lines that are not
      blank, in their original order, each as often as it occurs. */
  function NonBlankLines(text: string): (lines: seq<string>)
    ensures |lines| <= |Lines(text)|
    ensures forall k :: 0 <= k < |lines| ==> lines[k] != "" && IsTrimmed(lines[k])
    ensures forall l :: l in lines <==> l != "" && exists k :: 0 <= k < |Lines(text)| && l == Trim(Lines(text)[k])
    ensures IsSubsequence(lines, Map(Lines(text), Trim))
    ensures forall l :: multiset(lines)[l] == if l != "" then multiset(Map(Lines(text), Trim))[l] else 0
  {
    KeptLinesTrimmed(text);
    KeptLinesMembers(text);
    FilterCounts(Map(Lines(text), Trim), NotBlank);
    Filter(Map(Lines(text), Trim), NotBlank)
  }

  lemma KeptLinesTrimmed(text: string)
    ensures var r := Filter(Map(Lines(text), Trim), NotBlank);
      forall k :: 0 <= k < |r| ==> r[k] != "" && IsTrimmed(r[k])
  {
    var trimmed := Map(Lines(text), Trim);
    var r := Filter(trimmed, NotBlank);
    assert forall k :: 0 <= k < |r| ==> r[k] in trimmed;
  }

  lemma KeptLinesMembers(text: string)
    ensures var r := Filter(Map(Lines(text), Trim), NotBlank);
      forall l :: l in r <==> l != "" && exists k :: 0 <= k < |Lines(text)| && l == Trim(Lines(text)[k])
  {
  }

  /** The column separator of one line: tab if the line has a tab, else `;`
      if it has one, else `,`. The choice is made per line. */
  function Separator(line: string): (sep: char)
    ensures sep == '\t' <==> '\t' in line
    ensures sep == ';' <==> '\t' !in line && ';' in line
    ensures sep == ',' <==> '\t' !in line && ';' !in line
  {
    if '\t' in line then '\t' else if ';' in line then ';' else ','
  }

  /** `parts[k]`, which is `undefined` past the end. */
  function Part(parts: seq<string>, k: nat): Option<string>
  {
    if k < |parts| then Some(parts[k]) else None
  }

  /** One line as a row: the trimmed first three columns, a missing or empty
      status read as "New", a missing or empty owner as "". */
  function ParseLine(line: string): (row: PastedRow)
    ensures var cols := Split(line, Separator(line));
      && row.title == Trim(cols[0])
      && (|cols| >= 2 && Trim(cols[1]) != "" ==> row.status == Trim(cols[1]))
      && (|cols| < 2 || Trim(cols[1]) == "" ==> row.status == DefaultStatus)
      && (|cols| >= 3 ==> row.owner == Trim(cols[2]))
      && (|cols| < 3 ==> row.owner == "")
    ensures IsTrimmed(row.title) && IsTrimmed(row.status) && IsTrimmed(row.owner)
    ensures row.status != ""
  {
    var cols := Split(line, Separator(line));
    var parts := Map(cols, Trim);
    assert parts[0] == Trim(cols[0]);
    assert |cols| >= 2 ==> parts[1] == Trim(cols[1]);
    assert |cols| >= 3 ==> parts[2] == Trim(cols[2]);
    assert forall k :: 0 <= k < |parts| ==> IsTrimmed(parts[k]);
    assert IsTrimmed(DefaultStatus) && IsTrimmed("");
    PastedRow(OrElse(Part(parts, 0), ""), OrElse(Part(parts, 1), DefaultStatus), OrElse(Part(parts, 2), ""))
  }

  /** Columns beyond the third never change the row. */
  lemma ExtraColumnsIgnored(line: string, extra: string)
    requires |Split(line, Separator(line))| >= 3
    requires Separator(line + [Separator(line)] + extra) == Separator(line)
    ensures ParseLine(line + [Separator(line)] + extra) == ParseLine(line)
  {
    var sep := Separator(line);
    SplitConcat(line, sep, extra);
  }

  /** `parseBulk(text)`: one row per non-blank line, in line order, keeping
      exactly the rows whose title is not empty. */
  function ParseBulk(text: string): (rows: seq<PastedRow>)
    ensures |rows| <= |NonBlankLines(text)|
    ensures IsSubsequence(rows, Map(NonBlankLines(text), ParseLine))
    ensures forall r :: r in rows <==> r in Map(NonBlankLines(text), ParseLine) && r.title != ""
    ensures forall r :: multiset(rows)[r] == if r.title != "" then multiset(Map(NonBlankLines(text), ParseLine))[r] else 0
  {
    FilterCounts(Map(NonBlankLines(text), ParseLine), (r: PastedRow) => r.title != "");
    Filter(Map(NonBlankLines(text), ParseLine), (r: PastedRow) => r.title != "")
  }

  /** Every row has a title; no field carries surrounding whitespace, and
      the status is never empty. */
  lemma ParsedRowsTrimmed(text: string)
    ensures forall r :: r in ParseBulk(text) ==>
              r.title != "" && r.status != "" && IsTrimmed(r.title) && IsTrimmed(r.status) && IsTrimmed(r.owner)
  {
    ParsedLinesTrimmed(NonBlankLines(text));
  }

  lemma ParsedLinesTrimmed(lines: seq<string>)
    ensures forall r :: r in Map(lines, ParseLine) ==>
              r.status != "" && IsTrimmed(r.title) && IsTrimmed(r.status) && IsTrimmed(r.owner)
  {
    var parsed := Map(lines, ParseLine);
    forall r | r in parsed
      ensures r.status != "" && IsTrimmed(r.title) && IsTrimmed(r.status) && IsTrimmed(r.owner)
    {
      var k :| 0 <= k < |parsed| && parsed[k] == r;
      assert r == ParseLine(lines[k]);
    }
  }

  /** No line with a title is lost: its row is in the result. */
  lemma ParseBulkComplete(text: string)
    ensures forall k :: 0 <= k < |NonBlankLines(text)| && ParseLine(NonBlankLines(text)[k]).title != "" ==>
              ParseLine(NonBlankLines(text)[k]) in ParseBulk(text)
  {
    var parsed := Map(NonBlankLines(text), ParseLine);
    forall k | 0 <= k < |NonBlankLines(text)| && ParseLine(NonBlankLines(text)[k]).title != ""
      ensures ParseLine(NonBlankLines(text)[k]) in ParseBulk(text)
    {
      assert parsed[k] in parsed;
    }
  }
}
