/**
 CSV export of audit entries, and a reader that follows the quoting rules of section
 2 of RFC 4180 with LF line ends. Reading an export back gives the header and, for
 every entry, the texts of its cells.
 */
module AuditExport {
  import opened Prelude
  import opened Utf16
  import opened JsonText

  const LF: Unit := 10
  const CR: Unit := 13

  /** A column of the wire shape: absent, text, or data that is printed as JSON. */
  datatype Cell = Absent | Plain(text: Text) | Data(value: Json)

  /** The text a cell stands for, before any quoting. */
  function Raw(c: Cell): Text {
    match c
    case Absent => []
    case Plain(text) => text
    case Data(value) => Stringify(value)
  }

  predicate NeedsQuotes(raw: Text) {
    QUOTE in raw || COMMA in raw || LF in raw || CR in raw
  }

  /** `raw.replace(/"/g, '""')`. */
  function DoubleQuotes(raw: Text): Text {
    if raw == [] then []
    else (if raw[0] == QUOTE then [QUOTE, QUOTE] else [raw[0]]) + DoubleQuotes(raw[1..])
  }

  function QuoteIfNeeded(raw: Text): Text {
    if NeedsQuotes(raw) then [QUOTE] + DoubleQuotes(raw) + [QUOTE] else raw
  }

  function CsvCell(c: Cell): Text {
    if c.Absent? then [] else QuoteIfNeeded(Raw(c))
  }

  /** A text is written as it is exactly when it has none of the marks. */
  lemma {:induction false} BareExactlyWhen(raw: Text)
    ensures QuoteIfNeeded(raw) == raw
       <==> forall i :: 0 <= i < |raw| ==> raw[i] != 34 && raw[i] != 44 && raw[i] != 10 && raw[i] != 13
  {
    DoublingIsLonger(raw);
  }

  lemma {:induction false} DoublingIsLonger(raw: Text)
    ensures |DoubleQuotes(raw)| >= |raw|
  {
    if raw != [] {
      DoublingIsLonger(raw[1..]);
    }
  }

  /** `cells.join(',')` over nonempty rows. */
  function JoinCells(cells: seq<Text>): Text
    requires cells != []
  {
    if |cells| == 1 then cells[0] else cells[0] + [COMMA] + JoinCells(cells[1..])
  }

  function Quoted(texts: seq<Text>): (r: seq<Text>)
    ensures |r| == |texts|
  {
    seq(|texts|, i requires 0 <= i < |texts| => QuoteIfNeeded(texts[i]))
  }

  /** One line of the file for the given cell texts. */
  function Line(texts: seq<Text>): Text
    requires texts != []
  {
    JoinCells(Quoted(texts)) + [LF]
  }

  predicate NoEmptyRow(rows: seq<seq<Text>>) {
    forall i :: 0 <= i < |rows| ==> rows[i] != []
  }

  function Lines(rows: seq<seq<Text>>): Text
    requires NoEmptyRow(rows)
  {
    if rows == [] then [] else Line(rows[0]) + Lines(rows[1..])
  }

  function Texts(cells: seq<Cell>): (r: seq<Text>)
    ensures |r| == |cells|
  {
    seq(|cells|, i requires 0 <= i < |cells| => Raw(cells[i]))
  }

  // ---- a reader ----

  datatype Quoting = Unquoted | InQuotes | QuoteSeen

  /** Reads a file unit by unit: `cell` is the text of the current cell so far, `row` the
      cells of the current line, `rows` the finished lines. Anything but a quote, a comma or
      a line end behind a closing quote, a quote or a CR in an unquoted cell, and a quoted
      cell that is not closed make the file malformed; the last line may lack its end. */
  function ReadFrom(t: Text, mode: Quoting, cell: Text, row: seq<Text>, rows: seq<seq<Text>>): Option<seq<seq<Text>>>
    decreases |t|
  {
    if t == [] then
      if mode == InQuotes then None
      else if mode == Unquoted && cell == [] && row == [] then Some(rows)
      else Some(rows + [row + [cell]])
    else match mode
      case InQuotes =>
        if t[0] == QUOTE then ReadFrom(t[1..], QuoteSeen, cell, row, rows)
        else ReadFrom(t[1..], InQuotes, cell + [t[0]], row, rows)
      case QuoteSeen =>
        if t[0] == QUOTE then ReadFrom(t[1..], InQuotes, cell + [QUOTE], row, rows)
        else if t[0] == COMMA then ReadFrom(t[1..], Unquoted, [], row + [cell], rows)
        else if t[0] == LF then ReadFrom(t[1..], Unquoted, [], [], rows + [row + [cell]])
        else None
      case Unquoted =>
        if t[0] == COMMA then ReadFrom(t[1..], Unquoted, [], row + [cell], rows)
        else if t[0] == LF then ReadFrom(t[1..], Unquoted, [], [], rows + [row + [cell]])
        else if t[0] == QUOTE then if cell == [] then ReadFrom(t[1..], InQuotes, [], row, rows) else None
        else if t[0] == CR then None
        else ReadFrom(t[1..], Unquoted, cell + [t[0]], row, rows)
  }

  function ReadCsv(t: Text): Option<seq<seq<Text>>> {
    ReadFrom(t, Unquoted, [], [], [])
  }

  // ---- reading back what was written ----

  predicate EndsCell(t: Text) {
    t != [] && (t[0] == COMMA || t[0] == LF)
  }

  lemma {:induction false} ReadPlain(raw: Text, cell: Text, rest: Text, row: seq<Text>, rows: seq<seq<Text>>)
    requires !NeedsQuotes(raw)
    ensures ReadFrom(raw + rest, Unquoted, cell, row, rows) == ReadFrom(rest, Unquoted, cell + raw, row, rows)
    decreases |raw|
  {
    if raw == [] {
      assert raw + rest == rest && cell + raw == cell;
    } else {
      var t := raw + rest;
      assert t[0] == raw[0] && raw[0] in raw && t[1..] == raw[1..] + rest;
      ReadPlain(raw[1..], cell + [raw[0]], rest, row, rows);
      assert cell + [raw[0]] + raw[1..] == cell + raw;
    }
  }

  lemma {:induction false} ReadDoubledUnit(u: Unit, after: Text, cell: Text, row: seq<Text>, rows: seq<seq<Text>>)
    ensures ReadFrom((if u == QUOTE then [QUOTE, QUOTE] else [u]) + after, InQuotes, cell, row, rows)
         == ReadFrom(after, InQuotes, cell + [u], row, rows)
  {
    if u == QUOTE {
      assert [QUOTE, QUOTE] + after == [QUOTE] + ([QUOTE] + after);
      HeadTail(QUOTE, [QUOTE] + after);
      HeadTail(QUOTE, after);
    } else {
      HeadTail(u, after);
    }
  }

  lemma {:induction false} ReadDoubled(raw: Text, cell: Text, rest: Text, row: seq<Text>, rows: seq<seq<Text>>)
    ensures ReadFrom(DoubleQuotes(raw) + rest, InQuotes, cell, row, rows)
         == ReadFrom(rest, InQuotes, cell + raw, row, rows)
    decreases |raw|
  {
    if raw == [] {
      assert DoubleQuotes(raw) + rest == rest && cell + raw == cell;
    } else {
      var code := if raw[0] == QUOTE then [QUOTE, QUOTE] else [raw[0]];
      Regroup3(code, DoubleQuotes(raw[1..]), rest);
      ReadDoubledUnit(raw[0], DoubleQuotes(raw[1..]) + rest, cell, row, rows);
      ReadDoubled(raw[1..], cell + [raw[0]], rest, row, rows);
      assert cell + [raw[0]] + raw[1..] == cell + raw;
    }
  }

  /** After a cell, the reader stands at the mark that ends it with the cell's text. */
  lemma {:induction false} ReadCell(raw: Text, rest: Text, row: seq<Text>, rows: seq<seq<Text>>)
    requires EndsCell(rest)
    ensures ReadFrom(QuoteIfNeeded(raw) + rest, Unquoted, [], row, rows) ==
      if rest[0] == COMMA then ReadFrom(rest[1..], Unquoted, [], row + [raw], rows)
      else ReadFrom(rest[1..], Unquoted, [], [], rows + [row + [raw]])
  {
    if NeedsQuotes(raw) {
      var body := DoubleQuotes(raw) + ([QUOTE] + rest);
      Regroup4([QUOTE], DoubleQuotes(raw), [QUOTE], rest);
      HeadTail(QUOTE, body);
      ReadDoubled(raw, [], [QUOTE] + rest, row, rows);
      assert [] + raw == raw;
      HeadTail(QUOTE, rest);
    } else {
      ReadPlain(raw, [], rest, row, rows);
      assert [] + raw == raw;
    }
  }

  lemma {:induction false} ReadLine(texts: seq<Text>, rest: Text, row: seq<Text>, rows: seq<seq<Text>>)
    requires texts != []
    ensures ReadFrom(Line(texts) + rest, Unquoted, [], row, rows)
         == ReadFrom(rest, Unquoted, [], [], rows + [row + texts])
    decreases |texts|
  {
    var q := QuoteIfNeeded(texts[0]);
    if |texts| == 1 {
      Regroup3(q, [LF], rest);
      ReadCell(texts[0], [LF] + rest, row, rows);
      HeadTail(LF, rest);
      assert texts == [texts[0]];
    } else {
      var more := texts[1..];
      assert Quoted(texts)[1..] == Quoted(more);
      Regroup5(q, [COMMA], JoinCells(Quoted(more)), [LF], rest);
      assert Line(texts) + rest == q + ([COMMA] + (Line(more) + rest));
      ReadCell(texts[0], [COMMA] + (Line(more) + rest), row, rows);
      HeadTail(COMMA, Line(more) + rest);
      ReadLine(more, rest, row + [texts[0]], rows);
      assert row + [texts[0]] + more == row + texts;
    }
  }

  lemma {:induction false} Regroup5<T>(a: seq<T>, b: seq<T>, c: seq<T>, d: seq<T>, e: seq<T>)
    ensures a + b + c + d + e == a + (b + (c + d + e))
  {
  }

  lemma {:induction false} ReadLines(written: seq<seq<Text>>, rows: seq<seq<Text>>)
    requires NoEmptyRow(written)
    ensures ReadFrom(Lines(written), Unquoted, [], [], rows) == Some(rows + written)
    decreases |written|
  {
    if written == [] {
      assert rows + written == rows;
    } else {
      ReadLine(written[0], Lines(written[1..]), [], rows);
      assert [] + written[0] == written[0];
      ReadLines(written[1..], rows + [written[0]]);
      assert rows + [written[0]] + written[1..] == rows + written;
    }
  }

  /** Reading an export back gives every row, cell by cell, whatever the texts hold. */
  lemma {:induction false} CsvRoundTrip(rows: seq<seq<Text>>)
    requires NoEmptyRow(rows)
    ensures ReadCsv(Lines(rows)) == Some(rows)
  {
    ReadLines(rows, []);
    assert [] + rows == rows;
  }

  // ---- the export loop ----

  /** The text that is read back for a cell: none for an absent one, the text itself, or
      the JSON text of data. */
  ghost predicate ReadsBack(cell: Cell, text: Text) {
    match cell
    case Absent => text == []
    case Plain(plain) => text == plain
    case Data(value) => text == Stringify(value)
  }

  /** A row of cells and the row of texts that is read back for it. */
  ghost predicate RowReadsBack(cells: seq<Cell>, texts: seq<Text>) {
    |texts| == |cells| && forall i :: 0 <= i < |cells| ==> ReadsBack(cells[i], texts[i])
  }

  /** The file is read back as the header and a row for each entry. */
  ghost predicate FileReadsBack(file: Text, columns: seq<Text>, entries: seq<seq<Cell>>) {
    ReadCsv(file).Some? &&
    var rows := ReadCsv(file).value;
    |rows| == |entries| + 1 && rows[0] == columns && forall i :: 0 <= i < |entries| ==> RowReadsBack(entries[i], rows[i + 1])
  }

  lemma {:induction false} TextsReadBack(cells: seq<Cell>)
    ensures RowReadsBack(cells, Texts(cells))
  {
  }

  function OriginColumns(): seq<Text> {
    [Lit("id"), Lit("scope"), Lit("guildId"), Lit("seq"), Lit("action"), Lit("source")]
  }

  function SubjectColumns(): seq<Text> {
    [Lit("actorId"), Lit("actorType"), Lit("targetType"), Lit("targetId"), Lit("channelId")]
  }

  function ContextColumns(): seq<Text> {
    [Lit("correlationId"), Lit("causationId"), Lit("summary"), Lit("metadata")]
  }

  function RecordColumns(): seq<Text> {
    [Lit("before"), Lit("after"), Lit("previousHash"), Lit("hash"), Lit("occurredAt"), Lit("createdAt")]
  }

  function CsvColumns(): seq<Text> {
    OriginColumns() + SubjectColumns() + ContextColumns() + RecordColumns()
  }

  predicate Letters(name: Text) {
    forall i :: 0 <= i < |name| ==> 65 <= name[i] <= 122
  }

  predicate AllLetters(names: seq<Text>) {
    forall i :: 0 <= i < |names| ==> Letters(names[i])
  }

  lemma {:induction false} OriginLetters() ensures AllLetters(OriginColumns()) {}

  lemma {:induction false} SubjectLetters() ensures AllLetters(SubjectColumns()) {}

  lemma {:induction false} ContextLetters() ensures AllLetters(ContextColumns()) {}

  lemma {:induction false} RecordLetters() ensures AllLetters(RecordColumns()) {}

  /** A header of plain letters needs no quoting. */
  lemma {:induction false} LettersNeedNoQuotes(columns: seq<Text>)
    requires AllLetters(columns)
    ensures Quoted(columns) == columns
  {
    forall i | 0 <= i < |columns| ensures Quoted(columns)[i] == columns[i] {
      assert Letters(columns[i]);
    }
  }

  lemma {:induction false} CellsAreQuotedTexts(cells: seq<Cell>)
    ensures seq(|cells|, i requires 0 <= i < |cells| => CsvCell(cells[i])) == Quoted(Texts(cells))
  {
  }

  /** `toCsv` over entries in wire shape, one cell for each column. */
  method ToCsv(entries: seq<seq<Cell>>) returns (file: Text)
    requires forall i :: 0 <= i < |entries| ==> |entries[i]| == |CsvColumns()|
    ensures FileReadsBack(file, CsvColumns(), entries)
  {
    var columns := CsvColumns();
    OriginLetters();
    SubjectLetters();
    ContextLetters();
    RecordLetters();
    LettersNeedNoQuotes(columns);
    file := ToCsvWith(columns, entries);
  }

  method ToCsvWith(columns: seq<Text>, entries: seq<seq<Cell>>) returns (file: Text)
    requires columns != [] && Quoted(columns) == columns
    requires forall i :: 0 <= i < |entries| ==> |entries[i]| == |columns|
    ensures ReadCsv(file) == Some([columns] + seq(|entries|, i requires 0 <= i < |entries| => Texts(entries[i])))
    ensures FileReadsBack(file, columns, entries)
  {
    ghost var rows: seq<seq<Text>> := [];
    file := JoinCells(columns) + [LF];
    assert file == Line(columns) + Lines(rows);
    for i := 0 to |entries|
      invariant |rows| == i && NoEmptyRow(rows)
      invariant forall j :: 0 <= j < i ==> rows[j] == Texts(entries[j])
      invariant file == Line(columns) + Lines(rows)
    {
      var cells := seq(|entries[i]|, j requires 0 <= j < |entries[i]| => CsvCell(entries[i][j]));
      CellsAreQuotedTexts(entries[i]);
      LinesAppend(rows, Texts(entries[i]));
      Regroup3(Line(columns), Lines(rows), Line(Texts(entries[i])));
      rows := rows + [Texts(entries[i])];
      file := file + (JoinCells(cells) + [LF]);
    }
    ghost var all := [columns] + rows;
    HeadTail(columns, rows);
    assert rows == seq(|entries|, i requires 0 <= i < |entries| => Texts(entries[i]));
    CsvRoundTrip(all);
    forall i | 0 <= i < |entries| ensures RowReadsBack(entries[i], rows[i]) {
      TextsReadBack(entries[i]);
    }
  }

  lemma {:induction false} LinesAppend(rows: seq<seq<Text>>, r: seq<Text>)
    requires r != [] && NoEmptyRow(rows)
    ensures Lines(rows + [r]) == Lines(rows) + Line(r)
  {
    if rows == [] {
      assert (rows + [r])[1..] == [];
      assert Line(r) + [] == Line(r) && [] + Line(r) == Line(r);
    } else {
      assert (rows + [r])[1..] == rows[1..] + [r] && (rows + [r])[0] == rows[0];
      LinesAppend(rows[1..], r);
      Regroup3(Line(rows[0]), Lines(rows[1..]), Line(r));
    }
  }
}
