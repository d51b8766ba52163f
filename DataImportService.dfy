/**
 * The college-data import service: extension dispatch, a naive CSV parser that maps each
 * line to a header-keyed row, a keyword classifier choosing one of four categories, and the
 * store that keeps one list of rows per category.
 *
 * The store lives in browser `localStorage` under one key; here it is the in-memory state of
 * a `DataStore` object. The file's text is what `FileReader` would deliver, or `None` when
 * the read fails.
 */
module DataImportService {
  import opened Wrappers
  import opened JsString

  /** One parsed CSV line: an object whose properties are the header names. */
  type Row = map<string, string>

  /** The four collections of college data. */
  datatype Category = Faculty | Subjects | Rooms | Students

  /** An uploaded file: its name and its text, or `None` when reading it fails. */
  datatype File = File(name: string, contents: Option<string>)

  /** The outcome of an import: the rows on success, a message otherwise. */
  datatype ImportResult = Imported(recordCount: nat, data: seq<Row>) | Failed(error: string)

  const UnsupportedFormat := "Unsupported file format. Please use CSV or Excel files."
  const ExcelNotImplemented := "Excel parsing not implemented yet. Please use CSV format."
  const NoDataFound := "No data found in the file."
  const ReadFailure := "Failed to read CSV file"

  // ---------------------------------------------------------------------------------------
  // Extension dispatch
  // ---------------------------------------------------------------------------------------

  /** The last `.`-separated segment of a file name, lowercased (the whole name when it has no `.`). */
  function FileExtension(name: string): (ext: string)
    ensures '.' !in ext
  {
    var parts := Split(name, '.');
    var last := parts[|parts| - 1];
    var ext := ToLower(last);
    assert forall k :: 0 <= k < |ext| ==> ext[k] != '.' by {
      forall k | 0 <= k < |ext| ensures ext[k] != '.' {
        assert last[k] in last;
      }
    }
    ext
  }

  /** A name ending in `.` followed by a dot-free `ext` has extension `ext`, lowercased. */
  lemma ExtensionAfterLastDot(base: string, ext: string)
    requires '.' !in ext
    ensures FileExtension(base + "." + ext) == ToLower(ext)
  {
    SplitLastPiece(base, ext, '.');
    assert base + "." + ext == base + ['.'] + ext;
  }

  /** A name without any `.` is its own extension, lowercased. */
  lemma ExtensionWithoutDot(name: string)
    requires '.' !in name
    ensures FileExtension(name) == ToLower(name)
  {
    SplitWithoutSep(name, '.');
  }

  // ---------------------------------------------------------------------------------------
  // CSV parsing
  // ---------------------------------------------------------------------------------------

  /** A cell as the parser keeps it: trimmed, then every double quote deleted. */
  function CleanCell(cell: string): (r: string)
    ensures '"' !in r && |r| <= |cell|
    ensures forall x :: x in r <==> x in Trim(cell) && x != '"'
  {
    RemoveChar(Trim(cell), '"')
  }

  /** The cleaned comma-separated cells of one line, one per piece of the split. */
  function CleanCells(line: string): (cells: seq<string>)
    ensures |cells| == |Split(line, ',')| >= 1
    ensures forall j :: 0 <= j < |cells| ==> ',' !in cells[j] && '"' !in cells[j]
  {
    var pieces := Split(line, ',');
    seq(|pieces|, j requires 0 <= j < |pieces| => CleanCell(pieces[j]))
  }

  /** Cell j of a line is its j-th comma-separated piece, cleaned. */
  lemma CleanCellsAt(line: string)
    ensures forall j :: 0 <= j < |CleanCells(line)| ==> CleanCells(line)[j] == CleanCell(Split(line, ',')[j])
  {
  }

  /**
   * A cell is cleaned to its non-blank middle with every quote deleted: whitespace around a
   * part that neither starts nor ends with a space goes, and so does every `"` inside it.
   */
  lemma CleanPaddedCell(p: string, m: string, q: string)
    requires IsBlank(p) && IsBlank(q)
    requires m != [] && !IsSpace(m[0]) && !IsSpace(m[|m| - 1])
    ensures CleanCell(p + m + q) == RemoveChar(m, '"')
  {
    TrimPadded(p, m, q);
  }

  /** A padded, quoted cell such as `  "Room 101" ` is cleaned to its quote-free contents. */
  lemma CleanQuotedCell(p: string, x: string, q: string)
    requires IsBlank(p) && IsBlank(q) && '"' !in x
    ensures CleanCell(p + ['"'] + x + ['"'] + q) == x
  {
    var m := ['"'] + x + ['"'];
    assert p + ['"'] + x + ['"'] + q == p + m + q;
    CleanPaddedCell(p, m, q);
    RemoveCharBetween([], x, '"');
    RemoveCharAppend(['"'] + x, ['"'], '"');
    RemoveCharSingle('"', '"');
    assert [] + ['"'] + x == ['"'] + x && x + [] == x;
  }

  /** A quote inside a cell is deleted too, not only a surrounding pair. */
  lemma CleanInnerQuote(a: string, b: string)
    requires '"' !in a && '"' !in b
    requires a != [] && b != [] && !IsSpace(a[0]) && !IsSpace(b[|b| - 1])
    ensures CleanCell(a + ['"'] + b) == a + b
  {
    var m := a + ['"'] + b;
    assert m[0] == a[0] && m[|m| - 1] == b[|b| - 1];
    assert [] + m + [] == m;
    CleanPaddedCell([], m, []);
    RemoveCharBetween(a, b, '"');
  }

  /** `values[j] || ''`: the value at position `j`, or the empty string past the end. */
  function ValueAt(values: seq<string>, j: nat): (v: string)
    ensures j < |values| ==> v == values[j]
    ensures j >= |values| ==> v == ""
  {
    if j < |values| then values[j] else ""
  }

  /** The row after the `forEach` over headers has assigned the first `n` of them, in order. */
  function RowPrefix(headers: seq<string>, values: seq<string>, n: nat): Row
    requires n <= |headers|
  {
    if n == 0 then map[] else RowPrefix(headers, values, n - 1)[headers[n - 1] := ValueAt(values, n - 1)]
  }

  /** The row for a line with cells `values` under `headers`. */
  function RowOf(headers: seq<string>, values: seq<string>): Row {
    RowPrefix(headers, values, |headers|)
  }

  /** The keys of a partial row are exactly the headers assigned so far. */
  lemma {:induction false} RowPrefixKeys(headers: seq<string>, values: seq<string>, n: nat)
    requires n <= |headers|
    ensures forall h :: h in RowPrefix(headers, values, n) <==> h in headers[..n]
  {
    if n > 0 {
      RowPrefixKeys(headers, values, n - 1);
      assert headers[..n] == headers[..n - 1] + [headers[n - 1]];
    }
  }

  /** A header not repeated later holds the value at its own position. */
  lemma {:induction false} RowPrefixValue(headers: seq<string>, values: seq<string>, n: nat, j: nat)
    requires j < n <= |headers| && headers[j] !in headers[j + 1..n]
    ensures headers[j] in RowPrefix(headers, values, n)
    ensures RowPrefix(headers, values, n)[headers[j]] == ValueAt(values, j)
  {
    if j < n - 1 {
      assert headers[j + 1..n] == headers[j + 1..n - 1] + [headers[n - 1]];
      RowPrefixValue(headers, values, n - 1, j);
    }
  }

  /**
   * A row has exactly the headers as keys; a header maps to the value at the position of its
   * last occurrence, or to the empty string when the line has fewer values.
   */
  lemma RowOfSpec(headers: seq<string>, values: seq<string>)
    ensures forall h :: h in RowOf(headers, values) <==> h in headers
    ensures forall j :: 0 <= j < |headers| && headers[j] !in headers[j + 1..] ==>
              RowOf(headers, values)[headers[j]] == ValueAt(values, j)
  {
    RowPrefixKeys(headers, values, |headers|);
    assert headers[..|headers|] == headers;
    forall j | 0 <= j < |headers| && headers[j] !in headers[j + 1..]
      ensures RowOf(headers, values)[headers[j]] == ValueAt(values, j)
    {
      assert headers[j + 1..|headers|] == headers[j + 1..];
      RowPrefixValue(headers, values, |headers|, j);
    }
  }

  /** Values beyond the last header are dropped. */
  lemma {:induction false} RowPrefixDropsExtra(headers: seq<string>, values: seq<string>, n: nat)
    requires n <= |headers| <= |values|
    ensures RowPrefix(headers, values, n) == RowPrefix(headers, values[..|headers|], n)
  {
    if n > 0 {
      RowPrefixDropsExtra(headers, values, n - 1);
    }
  }

  /** A row depends only on as many values as there are headers. */
  lemma RowOfDropsExtra(headers: seq<string>, values: seq<string>)
    requires |headers| <= |values|
    ensures RowOf(headers, values) == RowOf(headers, values[..|headers|])
  {
    RowPrefixDropsExtra(headers, values, |headers|);
  }

  /** The lines whose trimmed form is non-empty, in order. */
  function NonBlank(lines: seq<string>): (kept: seq<string>)
    ensures |kept| <= |lines|
    ensures forall k :: 0 <= k < |kept| ==> !IsBlank(kept[k])
  {
    if lines == [] then []
    else
      NonBlank(lines[..|lines| - 1]) + Kept(lines[|lines| - 1])
  }

  /** What the filter keeps of one line: the line when its trimmed form is non-empty, else nothing. */
  function Kept(line: string): seq<string> {
    if Trim(line) != [] then [line] else []
  }

  /** Filtering blank lines works piecewise over blocks of lines. */
  lemma {:induction false} NonBlankAppend(a: seq<string>, b: seq<string>)
    ensures NonBlank(a + b) == NonBlank(a) + NonBlank(b)
  {
    if b == [] {
      assert a + b == a;
    } else {
      var b', last := b[..|b| - 1], b[|b| - 1];
      DropLast(b);
      AppendSnoc(a, b', last);
      NonBlankAppend(a, b');
      NonBlankSnoc(a + b', last);
      NonBlankSnoc(b', last);
      AppendAssoc(NonBlank(a), NonBlank(b'), Kept(last));
    }
  }

  /** One more line is kept at the end exactly when it is not blank. */
  lemma NonBlankSnoc(lines: seq<string>, line: string)
    ensures NonBlank(lines + [line]) == NonBlank(lines) + Kept(line)
  {
    var all := lines + [line];
    assert all[..|all| - 1] == lines;
  }

  /** A single line is kept exactly when it is not blank. */
  lemma NonBlankOne(line: string)
    ensures NonBlank([line]) == if IsBlank(line) then [] else [line]
  {
    assert [line][..0] == [];
  }

  /** A line is kept exactly when it is one of the lines and is not blank. */
  lemma {:induction false} NonBlankMembers(lines: seq<string>, l: string)
    ensures l in NonBlank(lines) <==> l in lines && !IsBlank(l)
  {
    if lines != [] {
      var init, last := lines[..|lines| - 1], lines[|lines| - 1];
      NonBlankMembers(init, l);
      DropLast(lines);
      NonBlankSnoc(init, last);
      assert l in Kept(last) <==> l == last && !IsBlank(last);
    }
  }

  /** The rows for the data lines `lines` under `headers`, one per line that is not blank. */
  function RowsOf(headers: seq<string>, lines: seq<string>): seq<Row> {
    if lines == [] then [] else RowsOf(headers, lines[..|lines| - 1]) + LineRows(headers, lines[|lines| - 1])
  }

  /** The rows one data line contributes: its row when its trimmed form is non-empty, else none. */
  function LineRows(headers: seq<string>, line: string): seq<Row> {
    if Trim(line) != [] then [RowOf(headers, CleanCells(line))] else []
  }

  /** The rows are those of the non-blank lines, in order, each built from the line's cleaned cells. */
  lemma {:induction false} RowsOfSpec(headers: seq<string>, lines: seq<string>)
    ensures |RowsOf(headers, lines)| == |NonBlank(lines)|
    ensures forall k :: 0 <= k < |NonBlank(lines)| ==>
              RowsOf(headers, lines)[k] == RowOf(headers, CleanCells(NonBlank(lines)[k]))
  {
    if lines != [] {
      RowsOfSpec(headers, lines[..|lines| - 1]);
    }
  }

  /** The rows of a CSV text: the first line gives the headers, every later non-blank line a row. */
  function CsvRows(text: string): seq<Row> {
    var lines := Split(text, '\n');
    RowsOf(CleanCells(lines[0]), lines[1..])
  }

  /** Parsing works line by line: the rows of two blocks of lines are the rows of each, in order. */
  lemma {:induction false} RowsOfAppend(headers: seq<string>, a: seq<string>, b: seq<string>)
    ensures RowsOf(headers, a + b) == RowsOf(headers, a) + RowsOf(headers, b)
  {
    if b == [] {
      assert a + b == a;
    } else {
      var b', last := b[..|b| - 1], b[|b| - 1];
      DropLast(b);
      AppendSnoc(a, b', last);
      RowsOfAppend(headers, a, b');
      RowsOfSnoc(headers, a + b', last);
      RowsOfSnoc(headers, b', last);
      AppendAssoc(RowsOf(headers, a), RowsOf(headers, b'), LineRows(headers, last));
    }
  }

  /** A non-empty sequence is its front followed by its last element. */
  lemma DropLast<T>(s: seq<T>)
    requires s != []
    ensures s == s[..|s| - 1] + [s[|s| - 1]]
  {
  }

  /** Appending to the second part of a concatenation appends to the whole. */
  lemma AppendSnoc<T>(a: seq<T>, b: seq<T>, x: T)
    ensures a + (b + [x]) == (a + b) + [x]
  {
  }

  /** Concatenation is associative. */
  lemma AppendAssoc<T>(a: seq<T>, b: seq<T>, c: seq<T>)
    ensures (a + b) + c == a + (b + c)
  {
  }

  /** Widening a slice by one element appends that element. */
  lemma SliceExtend<T>(s: seq<T>, i: nat, j: nat)
    requires i <= j < |s|
    ensures s[i..j + 1] == s[i..j] + [s[j]]
  {
  }

  /** Adding a line at the end adds that line's rows at the end. */
  lemma RowsOfSnoc(headers: seq<string>, lines: seq<string>, line: string)
    ensures RowsOf(headers, lines + [line]) == RowsOf(headers, lines) + LineRows(headers, line)
  {
    var all := lines + [line];
    assert all[..|all| - 1] == lines;
  }

  /** A single line yields exactly one row when it is not blank and none when it is. */
  lemma OneLine(headers: seq<string>, line: string)
    ensures !IsBlank(line) ==> RowsOf(headers, [line]) == [RowOf(headers, CleanCells(line))]
    ensures IsBlank(line) ==> RowsOf(headers, [line]) == []
  {
    assert [line][..0] == [];
  }

  /** Every row of one text has the same keys: the cleaned header cells. */
  lemma RowKeys(text: string, k: nat)
    requires k < |CsvRows(text)|
    ensures forall h :: h in CsvRows(text)[k] <==> h in CleanCells(Split(text, '\n')[0])
  {
    var lines := Split(text, '\n');
    var headers := CleanCells(lines[0]);
    RowsOfSpec(headers, lines[1..]);
    RowOfSpec(headers, CleanCells(NonBlank(lines[1..])[k]));
  }

  /** `parseCSV`: split into lines, take the headers from the first, build a row per non-blank later line. */
  method ParseCsv(text: string) returns (data: seq<Row>)
    ensures data == CsvRows(text)
  {
    var lines := Split(text, '\n');
    var headers := CleanCells(lines[0]);
    data := [];
    for i := 1 to |lines|
      invariant data == RowsOf(headers, lines[1..i])
    {
      SliceExtend(lines, 1, i);
      RowsOfSnoc(headers, lines[1..i], lines[i]);
      if Trim(lines[i]) != [] {
        var row := BuildRow(headers, CleanCells(lines[i]));
        data := data + [row];
      }
    }
    assert lines[1..|lines|] == lines[1..];
  }

  /** The `forEach` over the headers: each header in turn is set to the value at its position. */
  method BuildRow(headers: seq<string>, values: seq<string>) returns (row: Row)
    ensures row == RowOf(headers, values)
  {
    row := map[];
    for index := 0 to |headers|
      invariant row == RowPrefix(headers, values, index)
    {
      row := row[headers[index] := ValueAt(values, index)];
    }
  }

  // ---------------------------------------------------------------------------------------
  // The CSV round trip
  // ---------------------------------------------------------------------------------------

  /** A cell the naive parser reads back unchanged: no comma, newline or quote, nothing to trim. */
  predicate PlainCell(cell: string) {
    ',' !in cell && '\n' !in cell && '"' !in cell
    && (cell == [] || (!IsSpace(cell[0]) && !IsSpace(cell[|cell| - 1])))
  }

  /** A line of plain cells, at least one of them non-empty, so that the line is not blank. */
  predicate PlainLine(cells: seq<string>) {
    |cells| >= 1 && (forall j :: 0 <= j < |cells| ==> PlainCell(cells[j]))
    && exists j :: 0 <= j < |cells| && cells[j] != []
  }

  /** The text of a line of cells: the cells joined with commas. */
  function RenderLine(cells: seq<string>): string {
    if cells == [] then [] else Join(cells, ',')
  }

  /** The texts of the data lines, one per record. */
  function DataLines(records: seq<seq<string>>): (lines: seq<string>)
    ensures |lines| == |records|
  {
    seq(|records|, k requires 0 <= k < |records| => RenderLine(records[k]))
  }

  /** The text of a header line followed by data lines. */
  function RenderCsv(headers: seq<string>, records: seq<seq<string>>): string {
    Join([RenderLine(headers)] + DataLines(records), '\n')
  }

  /** Cleaning a plain cell changes nothing. */
  lemma CleanPlainCell(cell: string)
    requires PlainCell(cell)
    ensures CleanCell(cell) == cell
  {
    TrimOfTrimmed(cell);
    RemoveAbsentChar(cell, '"');
  }

  /** The cleaned cells of a rendered line of plain cells are those cells. */
  lemma CleanRenderedLine(cells: seq<string>)
    requires |cells| >= 1 && forall j :: 0 <= j < |cells| ==> PlainCell(cells[j])
    ensures CleanCells(RenderLine(cells)) == cells
    ensures '\n' !in RenderLine(cells)
  {
    SplitJoin(cells, ',');
    forall j | 0 <= j < |cells| ensures CleanCell(cells[j]) == cells[j] {
      CleanPlainCell(cells[j]);
    }
    JoinAvoids(cells, ',', '\n');
  }

  /** A rendered plain line with a non-empty cell is not blank. */
  lemma RenderedLineNotBlank(cells: seq<string>)
    requires PlainLine(cells)
    ensures !IsBlank(RenderLine(cells))
  {
    var j :| 0 <= j < |cells| && cells[j] != [];
    var c := cells[j];
    assert PlainCell(c);
    JoinContains(cells, ',', j, c[0]);
    NotBlankWitness(RenderLine(cells), c[0]);
  }

  /** A string holding a non-space character is not blank. */
  lemma NotBlankWitness(s: string, x: char)
    requires x in s && !IsSpace(x)
    ensures !IsBlank(s)
  {
  }

  /** When no line is blank, the filter keeps every line. */
  lemma {:induction false} NonBlankKeepsAll(lines: seq<string>)
    requires forall k :: 0 <= k < |lines| ==> !IsBlank(lines[k])
    ensures NonBlank(lines) == lines
  {
    if lines != [] {
      NonBlankKeepsAll(lines[..|lines| - 1]);
      DropLast(lines);
    }
  }

  /** Splitting a rendered text on newlines gives back its lines. */
  lemma SplitRendered(headers: seq<string>, records: seq<seq<string>>)
    requires |headers| >= 1 && forall j :: 0 <= j < |headers| ==> PlainCell(headers[j])
    requires forall k :: 0 <= k < |records| ==> PlainLine(records[k])
    ensures Split(RenderCsv(headers, records), '\n') == [RenderLine(headers)] + DataLines(records)
  {
    var dataLines := DataLines(records);
    var lines := [RenderLine(headers)] + dataLines;
    CleanRenderedLine(headers);
    forall k | 0 <= k < |lines| ensures '\n' !in lines[k] {
      if k > 0 {
        assert lines[k] == RenderLine(records[k - 1]);
        CleanRenderedLine(records[k - 1]);
      }
    }
    SplitJoin(lines, '\n');
  }

  /** The rendered data lines parse to one row per record. */
  lemma RowsOfRendered(headers: seq<string>, records: seq<seq<string>>)
    requires forall k :: 0 <= k < |records| ==> PlainLine(records[k])
    ensures |RowsOf(headers, DataLines(records))| == |records|
    ensures forall k :: 0 <= k < |records| ==> RowsOf(headers, DataLines(records))[k] == RowOf(headers, records[k])
  {
    var dataLines := DataLines(records);
    forall k | 0 <= k < |records|
      ensures !IsBlank(dataLines[k]) && CleanCells(dataLines[k]) == records[k]
    {
      CleanRenderedLine(records[k]);
      RenderedLineNotBlank(records[k]);
    }
    NonBlankKeepsAll(dataLines);
    RowsOfSpec(headers, dataLines);
  }

  /**
   * Rendering a header line and records of plain cells, then parsing, gives one row per
   * record, mapping each header to the record's cell at its position.
   */
  lemma CsvRoundTrip(headers: seq<string>, records: seq<seq<string>>)
    requires |headers| >= 1 && forall j :: 0 <= j < |headers| ==> PlainCell(headers[j])
    requires forall k :: 0 <= k < |records| ==> PlainLine(records[k])
    ensures |CsvRows(RenderCsv(headers, records))| == |records|
    ensures forall k :: 0 <= k < |records| ==>
              CsvRows(RenderCsv(headers, records))[k] == RowOf(headers, records[k])
  {
    var lines := [RenderLine(headers)] + DataLines(records);
    SplitRendered(headers, records);
    CleanRenderedLine(headers);
    assert lines[0] == RenderLine(headers) && lines[1..] == DataLines(records);
    RowsOfRendered(headers, records);
  }

  // ---------------------------------------------------------------------------------------
  // Category detection
  // ---------------------------------------------------------------------------------------

  /** A key naming a teacher: it mentions teacher, faculty or instructor, in any case. */
  predicate FacultyKey(key: string) {
    var k := ToLower(key);
    Contains(k, "teacher") || Contains(k, "faculty") || Contains(k, "instructor")
  }

  /** A key naming a subject: it mentions subject or course. */
  predicate SubjectKey(key: string) {
    var k := ToLower(key);
    Contains(k, "subject") || Contains(k, "course")
  }

  /** A key naming a room: it mentions room or classroom. */
  predicate RoomKey(key: string) {
    var k := ToLower(key);
    Contains(k, "room") || Contains(k, "classroom")
  }

  /**
   * `detectDataType`: the first keyword group that some key of the sample matches decides the
   * category (faculty, then subjects, then rooms); a sample matching none is students.
   */
  function DetectDataType(sample: Row): (c: Category)
    ensures c == Faculty <==> exists k :: k in sample && FacultyKey(k)
    ensures c == Subjects <==>
              (forall k :: k in sample ==> !FacultyKey(k)) && exists k :: k in sample && SubjectKey(k)
    ensures c == Rooms <==>
              (forall k :: k in sample ==> !FacultyKey(k) && !SubjectKey(k))
              && exists k :: k in sample && RoomKey(k)
    ensures c == Students <==> forall k :: k in sample ==> !FacultyKey(k) && !SubjectKey(k) && !RoomKey(k)
  {
    if exists k :: k in sample && FacultyKey(k) then Faculty
    else if exists k :: k in sample && SubjectKey(k) then Subjects
    else if exists k :: k in sample && RoomKey(k) then Rooms
    else Students
  }

  /** The category depends only on the keys of the sample, never on its values. */
  lemma DetectUsesKeysOnly(a: Row, b: Row)
    requires a.Keys == b.Keys
    ensures DetectDataType(a) == DetectDataType(b)
  {
  }

  /** All rows of one text fall in the same category, since they share the header keys. */
  lemma RowsShareCategory(text: string, k: nat, m: nat)
    requires k < |CsvRows(text)| && m < |CsvRows(text)|
    ensures DetectDataType(CsvRows(text)[k]) == DetectDataType(CsvRows(text)[m])
  {
    RowKeys(text, k);
    RowKeys(text, m);
    DetectUsesKeysOnly(CsvRows(text)[k], CsvRows(text)[m]);
  }

  /** The second keyword of the room group is redundant: a key mentioning classroom mentions room. */
  lemma RoomKeyIsRoom(key: string)
    ensures RoomKey(key) <==> Contains(ToLower(key), "room")
  {
    var k := ToLower(key);
    if Contains(k, "classroom") {
      var c := "classroom";
      assert c[5..][..4] == "room";
      assert Contains(c[5..], "room");
      assert Contains(c, "room") by {
        assert c[1..][1..][1..][1..][1..] == c[5..];
      }
      ContainsTransitive(k, c, "room");
    }
  }

  /** Headers "Teacher Name" and "Course" classify as faculty: the faculty group is checked first. */
  lemma TeacherBeforeCourse(sample: Row)
    requires sample.Keys == {"Teacher Name", "Course"}
    ensures DetectDataType(sample) == Faculty
  {
    var k := ToLower("Teacher Name");
    assert k[..7] == "teacher";
    assert "Teacher Name" in sample;
  }

  // ---------------------------------------------------------------------------------------
  // The category store
  // ---------------------------------------------------------------------------------------

  /** The stored college data: the rows of each imported category and the last import time. */
  class DataStore {
    var categories: map<Category, seq<Row>>
    var lastImported: Option<string>

    /** Nothing stored yet. */
    constructor ()
      ensures categories == map[] && lastImported == None
    {
      categories := map[];
      lastImported := None;
    }

    /** The rows stored for `c`, or none when `c` was never stored. */
    function Get(c: Category): (rows: seq<Row>)
      reads this
      ensures c in categories ==> rows == categories[c]
      ensures c !in categories ==> rows == []
    {
      if c in categories then categories[c] else []
    }

    /** `getFaculty`. */
    function GetFaculty(): (rows: seq<Row>)
      reads this
      ensures Faculty in categories ==> rows == categories[Faculty]
      ensures Faculty !in categories ==> rows == []
    {
      Get(Faculty)
    }

    /** `getSubjects`. */
    function GetSubjects(): (rows: seq<Row>)
      reads this
      ensures Subjects in categories ==> rows == categories[Subjects]
      ensures Subjects !in categories ==> rows == []
    {
      Get(Subjects)
    }

    /** `getRooms`. */
    function GetRooms(): (rows: seq<Row>)
      reads this
      ensures Rooms in categories ==> rows == categories[Rooms]
      ensures Rooms !in categories ==> rows == []
    {
      Get(Rooms)
    }

    /** `getStudents`. */
    function GetStudents(): (rows: seq<Row>)
      reads this
      ensures Students in categories ==> rows == categories[Students]
      ensures Students !in categories ==> rows == []
    {
      Get(Students)
    }

    /** `storeData`: the category's rows are replaced wholesale and the import time recorded. */
    method StoreData(data: seq<Row>, c: Category, now: string)
      modifies this
      ensures categories == old(categories)[c := data] && lastImported == Some(now)
      ensures Get(c) == data
      ensures forall c' :: c' != c ==> Get(c') == old(Get(c'))
    {
      categories := categories[c := data];
      lastImported := Some(now);
    }

    /** `clearData`: everything is forgotten, so every getter answers `[]`. */
    method ClearData()
      modifies this
      ensures categories == map[] && lastImported == None
      ensures forall c :: Get(c) == []
      ensures GetFaculty() == [] && GetSubjects() == [] && GetRooms() == [] && GetStudents() == []
    {
      categories := map[];
      lastImported := None;
    }

    /**
     * `importFile`: a `.csv` file is parsed, and a non-empty result is stored under its
     * detected category; every failure leaves the store as it was.
     */
    method ImportFile(file: File, now: string) returns (result: ImportResult)
      modifies this
      ensures var ext := FileExtension(file.name);
              ext == "csv" && file.contents.Some? && CsvRows(file.contents.value) != [] ==>
                var rows := CsvRows(file.contents.value);
                result == Imported(|rows|, rows)
                && categories == old(categories)[DetectDataType(rows[0]) := rows]
                && lastImported == Some(now)
      ensures var ext := FileExtension(file.name);
              ext == "csv" && file.contents.Some? && CsvRows(file.contents.value) == [] ==>
                result == Failed(NoDataFound) && unchanged(this)
      ensures var ext := FileExtension(file.name);
              ext == "csv" && file.contents.None? ==> result == Failed(ReadFailure) && unchanged(this)
      ensures var ext := FileExtension(file.name);
              (ext == "xlsx" || ext == "xls") ==> result == Failed(ExcelNotImplemented) && unchanged(this)
      ensures var ext := FileExtension(file.name);
              ext != "csv" && ext != "xlsx" && ext != "xls" ==> result == Failed(UnsupportedFormat) && unchanged(this)
      ensures result.Imported? ==> result.recordCount == |result.data| && result.data != []
    {
      var ext := FileExtension(file.name);
      if ext == "csv" {
        if file.contents.None? {
          return Failed(ReadFailure);
        }
        var data := ParseCsv(file.contents.value);
        if |data| == 0 {
          return Failed(NoDataFound);
        }
        StoreData(data, DetectDataType(data[0]), now);
        return Imported(|data|, data);
      } else if ext == "xlsx" || ext == "xls" {
        return Failed(ExcelNotImplemented);
      } else {
        return Failed(UnsupportedFormat);
      }
    }
  }
}
