/**
 The CSV scanner of CreateDOM.cpp: rows of fields, cut out of the file text in place, up to the row
 whose first field is EOF.
 */
module Csv {
  import opened Ascii
  import opened Events

  type Row = seq<seq<Byte>>

  const MAX_ARGV: nat := 128

  predicate IsNewline(c: Byte) {
    c == LF || c == CR
  }

  /** What ends a field: a comma, a newline, or the end of the text. */
  predicate IsDelimiter(c: Byte) {
    c == 0 || c == COMMA || IsNewline(c)
  }

  function Lower(c: Byte): Byte {
    if 65 <= c <= 90 then c + 32 else c
  }

  /** The field is EOF, in any case. */
  predicate IsEof(field: seq<Byte>) {
    |field| == 3 && Lower(field[0]) == 101 && Lower(field[1]) == 111 && Lower(field[2]) == 102
  }

  //////////////////////////////////////////////////////////////////////////////
  // What the scanner finds
  //////////////////////////////////////////////////////////////////////////////

  function SkipNewlines(src: seq<Byte>, p: nat): (q: nat)
    requires p <= |src|
    ensures p <= q <= |src| && !IsNewline(Peek(src, q))
    decreases |src| - p
  {
    if IsNewline(Peek(src, p)) then SkipNewlines(src, p + 1) else p
  }

  /** The next quote, or the end of the text. */
  function ClosingQuote(src: seq<Byte>, p: nat): (q: nat)
    requires p <= |src|
    ensures p <= q <= |src| && (Peek(src, q) == 0 || Peek(src, q) == QUOTE)
    ensures forall i | p <= i < q :: src[i] != 0
    decreases |src| - p
  {
    if Peek(src, p) == 0 || Peek(src, p) == QUOTE then p else ClosingQuote(src, p + 1)
  }

  function Delimiter(src: seq<Byte>, p: nat): (q: nat)
    requires p <= |src|
    ensures p <= q <= |src| && IsDelimiter(Peek(src, q))
    ensures forall i | p <= i < q :: src[i] != 0
    decreases |src| - p
  {
    if IsDelimiter(Peek(src, p)) then p else Delimiter(src, p + 1)
  }

  /** Where a field begins and ends, and the delimiter after it. */
  datatype Extent = Extent(begin: nat, end: nat, next: nat)

  function Field(src: seq<Byte>, p: nat): (e: Extent)
    requires p <= |src|
    ensures p <= e.begin <= e.end <= e.next <= |src|
  {
    if Peek(src, p) == QUOTE then
      var q := ClosingQuote(src, p + 1);
      Extent(p + 1, q, Delimiter(src, if Peek(src, q) == QUOTE then q + 1 else q))
    else
      var q := Delimiter(src, p);
      Extent(p, q, q)
  }

  /** The fields of a row, of which the first 128 count. */
  function Put(row: Row, field: seq<Byte>): Row {
    if |row| < MAX_ARGV then row + [field] else row
  }

  /** A row and where the text goes on; None for a row that no newline ends. */
  function RowAt(src: seq<Byte>, p: nat, row: Row): (r: Option<(Row, nat)>)
    requires p <= |src|
    ensures r.Some? ==> p < r.value.1 <= |src| && |r.value.0| >= 1
    decreases |src| - p
  {
    var e := Field(src, p);
    var more := Put(row, src[e.begin..e.end]);
    if Peek(src, e.next) == 0 then None
    else if IsNewline(Peek(src, e.next)) then Some((more, e.next + 1))
    else RowAt(src, e.next + 1, more)
  }

  /** The rows handed to processArgs. */
  function Rows(src: seq<Byte>, p: nat): seq<Row>
    requires p <= |src|
    decreases |src| - p
  {
    var q := SkipNewlines(src, p);
    if Peek(src, q) == 0 then []
    else
      match RowAt(src, q, [])
      case None => []
      case Some((row, next)) => if IsEof(row[0]) then [row] else [row] + Rows(src, next)
  }

  //////////////////////////////////////////////////////////////////////////////
  // Rows written in quotes come back
  //////////////////////////////////////////////////////////////////////////////

  predicate Plain(field: seq<Byte>) {
    0 !in field && QUOTE !in field
  }

  predicate PlainRow(row: Row) {
    1 <= |row| <= MAX_ARGV && forall i | 0 <= i < |row| :: Plain(row[i])
  }

  function Quoted(field: seq<Byte>): seq<Byte> {
    [QUOTE] + field + [QUOTE]
  }

  /** Fields with commas between them and a newline at the end. */
  function RowText(row: Row): seq<Byte> {
    if row == [] then [LF]
    else if |row| == 1 then Quoted(row[0]) + [LF]
    else Quoted(row[0]) + [COMMA] + RowText(row[1..])
  }

  function Text(rows: seq<Row>): seq<Byte> {
    if rows == [] then [] else RowText(rows[0]) + Text(rows[1..])
  }

  /** The rows up to and with the first that says EOF. */
  function UpToEof(rows: seq<Row>): seq<Row> {
    if rows == [] then []
    else if rows[0] != [] && IsEof(rows[0][0]) then [rows[0]]
    else [rows[0]] + UpToEof(rows[1..])
  }

  lemma {:induction false} QuoteCloses(src: seq<Byte>, p: nat, field: seq<Byte>)
    requires At(src, p, field + [QUOTE]) && Plain(field)
    ensures p + |field| < |src| && ClosingQuote(src, p) == p + |field| && Peek(src, p + |field|) == QUOTE
    decreases |field|
  {
    AtSplits(src, p, field, [QUOTE]);
    AtPeek(src, p + |field|, [QUOTE], 0);
    AtInside(src, p + |field|, [QUOTE]);
    if field != [] {
      AtPeek(src, p, field, 0);
      assert field + [QUOTE] == [field[0]] + (field[1..] + [QUOTE]);
      AtSplits(src, p, [field[0]], field[1..] + [QUOTE]);
      QuoteCloses(src, p + 1, field[1..]);
    }
  }

  lemma {:induction false} FieldReads(src: seq<Byte>, p: nat, field: seq<Byte>, c: Byte)
    requires At(src, p, Quoted(field) + [c]) && Plain(field) && IsDelimiter(c)
    ensures p < |src| && p + |field| + 2 < |src| && Peek(src, p + |field| + 2) == c
    ensures Field(src, p) == Extent(p + 1, p + 1 + |field|, p + |field| + 2) && src[p + 1..p + 1 + |field|] == field
  {
    hide At;
    assert Quoted(field) + [c] == [QUOTE] + (field + [QUOTE] + [c]);
    CharThen(src, p, QUOTE, field + [QUOTE] + [c]);
    AtSplits(src, p + 1, field + [QUOTE], [c]);
    QuoteCloses(src, p + 1, field);
    AtPeek(src, p + |field| + 2, [c], 0);
    AtInside(src, p + |field| + 2, [c]);
    AtSplits(src, p + 1, field, [QUOTE]);
    AtIs(src, p + 1, field);
  }

  lemma {:induction false} RowReads(src: seq<Byte>, p: nat, row: Row, before: Row)
    requires PlainRow(row) && At(src, p, RowText(row)) && |before| + |row| <= MAX_ARGV
    ensures p < |src| && RowAt(src, p, before) == Some((before + row, p + |RowText(row)|))
    decreases |row|
  {
    hide At, Field, Quoted, Plain, RowAt;
    var quoted := Quoted(row[0]);
    if |row| == 1 {
      FieldReads(src, p, row[0], LF);
      RowAtIs(src, p, before, Field(src, p));
      QuotedLength(row[0]);
      assert row == [row[0]];
      assert Put(before, row[0]) == before + row;
    } else {
      AtSplits(src, p, quoted + [COMMA], RowText(row[1..]));
      FieldReads(src, p, row[0], COMMA);
      RowAtIs(src, p, before, Field(src, p));
      QuotedLength(row[0]);
      assert Put(before, row[0]) == before + [row[0]];
      hide Put, IsNewline;
      RowReads(src, p + |row[0]| + 3, row[1..], before + [row[0]]);
      assert before + [row[0]] + row[1..] == before + row;
    }
  }

  lemma QuotedLength(field: seq<Byte>)
    ensures |Quoted(field)| == |field| + 2 && Quoted(field)[0] == QUOTE
  {
  }

  lemma {:induction false} RowTextStarts(row: Row)
    requires PlainRow(row)
    ensures |RowText(row)| >= 1 && RowText(row)[0] == QUOTE
  {
    QuotedLength(row[0]);
  }

  lemma {:induction false} RowsRead(src: seq<Byte>, p: nat, rows: seq<Row>)
    requires forall i | 0 <= i < |rows| :: PlainRow(rows[i])
    requires At(src, p, Text(rows)) && |src| == p + |Text(rows)|
    ensures Rows(src, p) == UpToEof(rows)
    decreases |rows|
  {
    hide At, RowText, RowAt, IsEof;
    if rows != [] {
      AtSplits(src, p, RowText(rows[0]), Text(rows[1..]));
      RowTextStarts(rows[0]);
      AtPeek(src, p, RowText(rows[0]), 0);
      RowReads(src, p, rows[0], []);
      assert [] + rows[0] == rows[0];
      RowsRead(src, p + |RowText(rows[0])|, rows[1..]);
    }
  }

  /** Rows of at most 128 quoted fields are handed on one by one, up to the first that says EOF. */
  lemma ScansRows(rows: seq<Row>)
    requires forall i | 0 <= i < |rows| :: PlainRow(rows[i])
    ensures Rows(Text(rows), 0) == UpToEof(rows)
  {
    assert Text(rows)[0..|Text(rows)|] == Text(rows);
    RowsRead(Text(rows), 0, rows);
  }

  //////////////////////////////////////////////////////////////////////////////
  // Rows as files have them
  //////////////////////////////////////////////////////////////////////////////

  /** A field in quotes, with what stands between them and the delimiter and is passed over, or as it is. */
  datatype Cell = InQuotes(text: seq<Byte>, junk: seq<Byte>) | Bare(text: seq<Byte>)

  predicate NoDelimiter(s: seq<Byte>) {
    forall i | 0 <= i < |s| :: !IsDelimiter(s[i])
  }

  predicate GoodCell(cell: Cell) {
    match cell
    case InQuotes(text, junk) => Plain(text) && NoDelimiter(junk)
    case Bare(text) => NoDelimiter(text) && (text != [] ==> text[0] != QUOTE)
  }

  function CellText(cell: Cell): seq<Byte> {
    match cell
    case InQuotes(text, junk) => Quoted(text) + junk
    case Bare(text) => text
  }

  /** A row of cells: newlines in front of it are passed over, a newline ends it. */
  datatype Record = Record(gap: seq<Byte>, cells: seq<Cell>, end: Byte)

  predicate AllNewlines(s: seq<Byte>) {
    forall i | 0 <= i < |s| :: IsNewline(s[i])
  }

  predicate GoodCells(cells: seq<Cell>) {
    forall i | 0 <= i < |cells| :: GoodCell(cells[i])
  }

  /** A row of one empty cell would be an empty line. */
  predicate GoodRecord(record: Record) {
    && AllNewlines(record.gap) && IsNewline(record.end)
    && 1 <= |record.cells| <= MAX_ARGV && GoodCells(record.cells) && record.cells != [Bare([])]
  }

  function CellsText(cells: seq<Cell>, end: Byte): seq<Byte>
    requires cells != []
  {
    if |cells| == 1 then CellText(cells[0]) + [end] else CellText(cells[0]) + [COMMA] + CellsText(cells[1..], end)
  }

  function RecordsText(records: seq<Record>): seq<Byte>
    requires forall i | 0 <= i < |records| :: GoodRecord(records[i])
  {
    if records == [] then []
    else
      assert GoodRecord(records[0]);
      records[0].gap + (CellsText(records[0].cells, records[0].end) + RecordsText(records[1..]))
  }

  function Fields(cells: seq<Cell>): (row: Row)
    ensures |row| == |cells|
  {
    seq(|cells|, i requires 0 <= i < |cells| => cells[i].text)
  }

  function RecordFields(records: seq<Record>): seq<Row> {
    seq(|records|, i requires 0 <= i < |records| => Fields(records[i].cells))
  }

  lemma {:induction false} DelimiterHere(src: seq<Byte>, p: nat, s: seq<Byte>)
    requires NoDelimiter(s) && At(src, p, s) && IsDelimiter(Peek(src, p + |s|))
    ensures p <= |src| && Delimiter(src, p) == p + |s|
    decreases |s|
  {
    AtInside(src, p, s);
    if s != [] {
      AtPeek(src, p, s, 0);
      assert s == [s[0]] + s[1..];
      AtSplits(src, p, [s[0]], s[1..]);
      DelimiterHere(src, p + 1, s[1..]);
    }
  }

  lemma {:induction false} CellReads(src: seq<Byte>, p: nat, cell: Cell, c: Byte)
    requires GoodCell(cell) && At(src, p, CellText(cell) + [c]) && IsDelimiter(c) && c != 0
    ensures var q := p + |CellText(cell)|;
            && q < |src| && Peek(src, q) == c
            && Field(src, p).next == q && src[Field(src, p).begin..Field(src, p).end] == cell.text
  {
    hide At, Field;
    var q := p + |CellText(cell)|;
    AtSplits(src, p, CellText(cell), [c]);
    AtPeek(src, q, [c], 0);
    AtInside(src, q, [c]);
    match cell
    case Bare(text) => BareReads(src, p, text);
    case InQuotes(text, junk) => QuotedReads(src, p, text, junk);
  }

  lemma {:induction false} BareReads(src: seq<Byte>, p: nat, text: seq<Byte>)
    requires GoodCell(Bare(text)) && At(src, p, text) && p + |text| < |src| && IsDelimiter(Peek(src, p + |text|))
    ensures Field(src, p) == Extent(p, p + |text|, p + |text|) && src[p..p + |text|] == text
  {
    hide At, Delimiter;
    if text != [] { AtPeek(src, p, text, 0); }
    DelimiterHere(src, p, text);
    AtIs(src, p, text);
  }

  lemma {:induction false} QuotedReads(src: seq<Byte>, p: nat, text: seq<Byte>, junk: seq<Byte>)
    requires GoodCell(InQuotes(text, junk)) && At(src, p, Quoted(text) + junk)
    requires IsDelimiter(Peek(src, p + |text| + 2 + |junk|))
    ensures p + 1 + |text| <= |src| && src[p + 1..p + 1 + |text|] == text
    ensures Field(src, p) == Extent(p + 1, p + 1 + |text|, p + |text| + 2 + |junk|)
  {
    hide At, Delimiter, ClosingQuote;
    AtSplits(src, p, Quoted(text), junk);
    assert Quoted(text) == [QUOTE] + (text + [QUOTE]);
    CharThen(src, p, QUOTE, text + [QUOTE]);
    QuoteCloses(src, p + 1, text);
    DelimiterHere(src, p + 2 + |text|, junk);
    AtSplits(src, p + 1, text, [QUOTE]);
    AtIs(src, p + 1, text);
  }

  lemma {:induction false} CellsRead(src: seq<Byte>, p: nat, cells: seq<Cell>, end: Byte, before: Row)
    requires cells != [] && GoodCells(cells) && IsNewline(end) && At(src, p, CellsText(cells, end))
    requires |before| + |cells| <= MAX_ARGV
    ensures p < |src| && RowAt(src, p, before) == Some((before + Fields(cells), p + |CellsText(cells, end)|))
    decreases |cells|
  {
    hide At, Field, RowAt, GoodCell, CellText;
    var text := CellText(cells[0]);
    AtInside(src, p, CellsText(cells, end));
    if |cells| == 1 {
      CellReads(src, p, cells[0], end);
      RowAtIs(src, p, before, Field(src, p));
      assert Put(before, cells[0].text) == before + Fields(cells);
    } else {
      var rest := CellsText(cells[1..], end);
      AtSplits(src, p, text + [COMMA], rest);
      CellReads(src, p, cells[0], COMMA);
      RowAtIs(src, p, before, Field(src, p));
      assert Put(before, cells[0].text) == before + [cells[0].text];
      hide Put, IsNewline;
      CellsRead(src, p + |text| + 1, cells[1..], end, before + [cells[0].text]);
      assert Fields(cells) == [cells[0].text] + Fields(cells[1..]);
      assert before + [cells[0].text] + Fields(cells[1..]) == before + Fields(cells);
    }
  }

  lemma {:induction false} GapSkips(src: seq<Byte>, p: nat, gap: seq<Byte>)
    requires AllNewlines(gap) && At(src, p, gap) && !IsNewline(Peek(src, p + |gap|))
    ensures p <= |src| && SkipNewlines(src, p) == p + |gap|
    decreases |gap|
  {
    AtInside(src, p, gap);
    if gap != [] {
      AtPeek(src, p, gap, 0);
      assert gap == [gap[0]] + gap[1..];
      AtSplits(src, p, [gap[0]], gap[1..]);
      GapSkips(src, p + 1, gap[1..]);
    }
  }

  /** A row does not begin like an empty line or the end of the text. */
  lemma {:induction false} CellsStart(cells: seq<Cell>, end: Byte)
    requires cells != [] && GoodCells(cells) && cells != [Bare([])] && IsNewline(end)
    ensures var text := CellsText(cells, end); text != [] && !IsNewline(text[0]) && text[0] != 0
  {
    assert GoodCell(cells[0]);
    assert |cells| == 1 ==> cells == [cells[0]];
  }

  /** What is left at the end of the file without a newline behind it is not handed on. */
  lemma {:induction false} NoRow(src: seq<Byte>, p: nat, row: Row)
    requires p <= |src| && forall i | p <= i < |src| :: !IsNewline(src[i])
    ensures RowAt(src, p, row).None?
    decreases |src| - p
  {
    hide Field, Put;
    var e := Field(src, p);
    RowAtIs(src, p, row, e);
    DelimiterAfter(src, p);
    if Peek(src, e.next) != 0 {
      NoRow(src, e.next + 1, Put(row, src[e.begin..e.end]));
    }
  }

  lemma DelimiterAfter(src: seq<Byte>, p: nat)
    requires p <= |src|
    ensures IsDelimiter(Peek(src, Field(src, p).next))
  {
  }

  predicate NoNewline(s: seq<Byte>) {
    forall i | 0 <= i < |s| :: !IsNewline(s[i])
  }

  lemma {:induction false} RecordsRead(src: seq<Byte>, p: nat, records: seq<Record>, gap: seq<Byte>, partial: seq<Byte>)
    requires (forall i | 0 <= i < |records| :: GoodRecord(records[i])) && AllNewlines(gap) && NoNewline(partial)
    requires At(src, p, RecordsText(records) + (gap + partial)) && |src| == p + |RecordsText(records) + (gap + partial)|
    ensures Rows(src, p) == UpToEof(RecordFields(records))
    decreases |records|
  {
    hide At, RowAt, IsEof, SkipNewlines, CellsText, GoodCells;
    if records == [] {
      assert RecordsText(records) + (gap + partial) == gap + partial;
      AtSplits(src, p, gap, partial);
      PartialIgnored(src, p, gap, partial);
    } else {
      var record, cells := records[0], records[0].cells;
      assert GoodRecord(record);
      var text, rest := CellsText(cells, record.end), RecordsText(records[1..]) + (gap + partial);
      assert RecordsText(records) + (gap + partial) == record.gap + (text + rest);
      AtSplits(src, p, record.gap, text + rest);
      var q := p + |record.gap|;
      AtSplits(src, q, text, rest);
      CellsStart(cells, record.end);
      AtPeek(src, q, text, 0);
      GapSkips(src, p, record.gap);
      CellsRead(src, q, cells, record.end, []);
      assert [] + Fields(cells) == Fields(cells);
      RecordsRead(src, q + |text|, records[1..], gap, partial);
      assert RecordFields(records) == [Fields(cells)] + RecordFields(records[1..]);
    }
  }

  lemma {:induction false} PartialIgnored(src: seq<Byte>, p: nat, gap: seq<Byte>, partial: seq<Byte>)
    requires AllNewlines(gap) && NoNewline(partial) && At(src, p, gap) && At(src, p + |gap|, partial)
    requires |src| == p + |gap| + |partial|
    ensures Rows(src, p) == []
  {
    hide SkipNewlines, RowAt;
    var q := p + |gap|;
    AtIs(src, q, partial);
    forall i | q <= i < |src| ensures !IsNewline(src[i]) { assert src[i] == partial[i - q]; }
    GapSkips(src, p, gap);
    NoRow(src, q, []);
  }

  /** A file of rows, their fields in quotes or not, with empty lines between them and CR or LF behind
      them: the rows are handed on in order up to the first that says EOF, and what follows the last
      newline is not. */
  lemma ScansRecords(records: seq<Record>, gap: seq<Byte>, partial: seq<Byte>)
    requires (forall i | 0 <= i < |records| :: GoodRecord(records[i])) && AllNewlines(gap) && NoNewline(partial)
    ensures Rows(RecordsText(records) + (gap + partial), 0) == UpToEof(RecordFields(records))
  {
    hide RecordsText;
    var src := RecordsText(records) + (gap + partial);
    assert src[0..|src|] == src;
    RecordsRead(src, 0, records, gap, partial);
  }

  //////////////////////////////////////////////////////////////////////////////
  // The scanner, in place
  //////////////////////////////////////////////////////////////////////////////

  /** The C string at a position of a text with a NUL behind it. */
  function CStringAt(s: seq<Byte>, p: nat): seq<Byte>
    decreases |s| - p
  {
    if p >= |s| || s[p] == 0 then [] else [s[p]] + CStringAt(s, p + 1)
  }

  /** A field lies in the buffer, ended by a NUL before `limit`. */
  predicate Lies(s: seq<Byte>, p: nat, field: seq<Byte>, limit: nat) {
    p + |field| < limit <= |s| && s[p..p + |field|] == field && s[p + |field|] == 0 && 0 !in field
  }

  lemma {:induction false} CStringLies(s: seq<Byte>, p: nat, field: seq<Byte>, limit: nat)
    requires Lies(s, p, field, limit)
    ensures CStringAt(s, p) == field
    decreases |field|
  {
    if field != [] {
      var rest := field[1..];
      assert s[p] == field[0] by { assert s[p..p + |field|][0] == s[p]; }
      assert s[p + 1..p + 1 + |rest|] == s[p..p + |field|][1..] == rest;
      CStringLies(s, p + 1, rest, limit);
    }
  }

  /** The fields of a row lie where `argv` points. */
  predicate AllLie(s: seq<Byte>, argv: seq<nat>, row: Row, limit: nat) {
    |argv| == |row| && forall k | 0 <= k < |row| :: Lies(s, argv[k], row[k], limit)
  }

  /** Writing NULs from `limit` on leaves the fields before it alone. */
  lemma LiesStill(s: seq<Byte>, t: seq<Byte>, argv: seq<nat>, row: Row, limit: nat, more: nat)
    requires AllLie(s, argv, row, limit) && |t| == |s| && limit <= more <= |t| && t[..limit] == s[..limit]
    ensures AllLie(t, argv, row, more)
  {
    forall k | 0 <= k < |row| ensures Lies(t, argv[k], row[k], more) {
      var p, n := argv[k], |row[k]|;
      assert Lies(s, p, row[k], limit);
      assert forall i | 0 <= i < limit :: t[i] == t[..limit][i] == s[..limit][i] == s[i];
      assert t[p..p + n] == s[p..p + n];
    }
  }

  /** The text not yet scanned is still as it was read. */
  ghost predicate Fresh(data: array<Byte>, src: seq<Byte>, scan: nat)
    reads data
  {
    data.Length == |src| + 1 && scan <= |src| && data[scan..|src|] == src[scan..] && data[|src|] == 0
  }

  lemma FreshPeek(data: array<Byte>, src: seq<Byte>, scan: nat)
    requires Fresh(data, src, scan)
    ensures data[scan] == Peek(src, scan)
    ensures scan < |src| ==> Fresh(data, src, scan + 1)
  {
    if scan < |src| {
      assert data[scan] == data[scan..|src|][0] == src[scan..][0];
      assert data[scan + 1..|src|] == data[scan..|src|][1..] == src[scan..][1..] == src[scan + 1..];
    }
  }

  method ScanQuote(data: array<Byte>, begin: nat, ghost src: seq<Byte>) returns (scan: nat)
    requires Fresh(data, src, begin)
    ensures scan == ClosingQuote(src, begin) && Fresh(data, src, scan)
  {
    scan := begin;
    FreshPeek(data, src, scan);
    while data[scan] != 0 && data[scan] != QUOTE
      invariant begin <= scan && Fresh(data, src, scan) && data[scan] == Peek(src, scan)
      invariant ClosingQuote(src, begin) == ClosingQuote(src, scan)
      decreases |src| - scan
    {
      FreshPeek(data, src, scan);
      scan := scan + 1;
      FreshPeek(data, src, scan);
    }
  }

  method ScanDelimiter(data: array<Byte>, begin: nat, ghost src: seq<Byte>) returns (scan: nat)
    requires Fresh(data, src, begin)
    ensures scan == Delimiter(src, begin) && Fresh(data, src, scan)
  {
    scan := begin;
    FreshPeek(data, src, scan);
    while data[scan] != 0 && data[scan] != COMMA && data[scan] != LF && data[scan] != CR
      invariant begin <= scan && Fresh(data, src, scan) && data[scan] == Peek(src, scan)
      invariant Delimiter(src, begin) == Delimiter(src, scan)
      decreases |src| - scan
    {
      FreshPeek(data, src, scan);
      scan := scan + 1;
      FreshPeek(data, src, scan);
    }
  }

  /** A field has been scanned: it is still there, and a NUL behind it if it was in quotes. */
  ghost predicate Scanned(data: array<Byte>, src: seq<Byte>, e: Extent)
    requires e.begin <= e.end <= e.next <= |src|
    reads data
  {
    && Fresh(data, src, e.next)
    && data[e.begin..e.end] == src[e.begin..e.end] && 0 !in src[e.begin..e.end]
    && (e.end < e.next ==> data[e.end] == 0)
  }

  method TakeQuoted(data: array<Byte>, p: nat, ghost src: seq<Byte>) returns (scan: nat)
    requires Fresh(data, src, p) && Peek(src, p) == QUOTE
    modifies data
    ensures data[..p] == old(data[..p])
    ensures scan == Field(src, p).next && Scanned(data, src, Field(src, p))
  {
    hide ClosingQuote, Delimiter;
    ghost var begin := p + 1;
    FreshPeek(data, src, p);
    var quote := ScanQuote(data, p + 1, src);
    FreshPeek(data, src, quote);
    Between(data, src, begin, quote);
    scan := quote;
    if data[scan] != 0 {
      data[scan] := 0;
      scan := scan + 1;
    }
    scan := ScanDelimiter(data, scan, src);
  }

  lemma Between(data: array<Byte>, src: seq<Byte>, p: nat, q: nat)
    requires Fresh(data, src, p) && p <= q <= |src|
    ensures data[p..q] == src[p..q]
  {
    Elements(data, src, p);
  }

  method TakePlain(data: array<Byte>, p: nat, ghost src: seq<Byte>) returns (scan: nat)
    requires Fresh(data, src, p) && Peek(src, p) != QUOTE
    ensures scan == Field(src, p).next && Scanned(data, src, Field(src, p))
  {
    scan := ScanDelimiter(data, p, src);
    Between(data, src, p, scan);
  }

  lemma Elements(data: array<Byte>, src: seq<Byte>, p: nat)
    requires Fresh(data, src, p)
    ensures forall i | p <= i < |src| :: data[i] == src[i]
  {
    forall i | p <= i < |src| ensures data[i] == src[i] {
      assert data[i] == data[p..|src|][i - p] == src[p..][i - p];
    }
  }

  /** One field and the delimiter behind it, which becomes a NUL. */
  method NextField(data: array<Byte>, start: nat, argv: seq<nat>, ghost src: seq<Byte>, ghost row: Row)
      returns (c: Byte, scan: nat, args: seq<nat>)
    requires Fresh(data, src, start) && AllLie(data[..], argv, row, start)
    modifies data
    ensures var e := Field(src, start);
            && c == Peek(src, e.next)
            && (c != 0 ==> scan == e.next + 1 && Fresh(data, src, scan) && AllLie(data[..], args, Put(row, src[e.begin..e.end]), scan))
  {
    hide Field, Lies, AllLie, Put;
    ghost var e, before := Field(src, start), data[..];
    FreshPeek(data, src, start);
    BeginsAt(src, start);
    var begin := if data[start] == QUOTE then start + 1 else start;
    if data[start] == QUOTE {
      scan := TakeQuoted(data, start, src);
    } else {
      scan := TakePlain(data, start, src);
    }
    FreshPeek(data, src, scan);
    c := data[scan];
    args := argv;
    if c != 0 {
      data[scan] := 0;
      assert data[..start] == before[..start];
      FieldLies(data, src, e);
      LiesStill(before, data[..], argv, row, start, scan + 1);
      LiesMore(data[..], argv, row, begin, src[e.begin..e.end], scan + 1);
      if |argv| < MAX_ARGV {
        args := argv + [begin];
      }
      scan := scan + 1;
    }
  }

  /** The loop over the fields of a row. */
  method TakeRow(data: array<Byte>, start: nat, ghost src: seq<Byte>) returns (r: Option<(Row, nat)>)
    requires Fresh(data, src, start)
    modifies data
    ensures r == RowAt(src, start, [])
    ensures r.Some? ==> Fresh(data, src, r.value.1)
  {
    hide Field, Lies, Put;
    var argv: seq<nat>, scan := [], start;
    ghost var row: Row := [];
    while true
      invariant Fresh(data, src, scan) && AllLie(data[..], argv, row, scan)
      invariant RowAt(src, start, []) == RowAt(src, scan, row)
      decreases |src| - scan
    {
      ghost var e := Field(src, scan);
      RowAtIs(src, scan, row, e);
      var c;
      c, scan, argv := NextField(data, scan, argv, src, row);
      row := Put(row, src[e.begin..e.end]);
      if c == 0 {
        return None;
      }
      if c == LF || c == CR {
        Collected(data[..], argv, row, scan);
        return Some((Collect(data[..], argv), scan));
      }
    }
  }

  lemma RowAtIs(src: seq<Byte>, p: nat, row: Row, e: Extent)
    requires p <= |src| && e == Field(src, p)
    ensures var more := Put(row, src[e.begin..e.end]);
            RowAt(src, p, row) ==
            if Peek(src, e.next) == 0 then None
            else if IsNewline(Peek(src, e.next)) then Some((more, e.next + 1))
            else RowAt(src, e.next + 1, more)
  {
    hide Field, Put;
  }

  lemma BeginsAt(src: seq<Byte>, p: nat)
    requires p <= |src|
    ensures Field(src, p).begin == if Peek(src, p) == QUOTE then p + 1 else p
  {
  }

  lemma FieldLies(data: array<Byte>, src: seq<Byte>, e: Extent)
    requires data.Length == |src| + 1 && e.begin <= e.end <= e.next < |src|
    requires data[e.begin..e.end] == src[e.begin..e.end] && 0 !in src[e.begin..e.end] && data[e.end] == 0
    ensures Lies(data[..], e.begin, src[e.begin..e.end], e.next + 1)
  {
  }

  lemma LiesMore(s: seq<Byte>, argv: seq<nat>, row: Row, p: nat, field: seq<Byte>, limit: nat)
    requires AllLie(s, argv, row, limit) && Lies(s, p, field, limit)
    ensures AllLie(s, if |argv| < MAX_ARGV then argv + [p] else argv, Put(row, field), limit)
  {
    hide Lies;
  }

  /** The arguments as processArgs sees them. */
  function Collect(s: seq<Byte>, argv: seq<nat>): Row {
    seq(|argv|, k requires 0 <= k < |argv| => CStringAt(s, argv[k]))
  }

  lemma Collected(s: seq<Byte>, argv: seq<nat>, row: Row, limit: nat)
    requires AllLie(s, argv, row, limit)
    ensures Collect(s, argv) == row
  {
    hide Lies;
    forall k | 0 <= k < |row| ensures CStringAt(s, argv[k]) == row[k] {
      CStringLies(s, argv[k], row[k], limit);
    }
  }
}
