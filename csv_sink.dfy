/**
 * The CSV sink, write_to_csv. The file is modelled one line per entry: a
 * header line holding column names, or a record line holding one result row.
 * How csv.DictWriter renders a line as bytes (quoting, escaping, line ends)
 * is not modelled.
 */
module CsvSink {

  datatype Option<T> = None | Some(value: T)

  /** One column of a result row: its name and the text written for its value. */
  datatype Cell = Cell(column: string, value: string)

  /** A result row: its cells in the row's own key order. */
  type Row = seq<Cell>

  /** The keys of a row, in order: what DictWriter takes as field names. */
  function Columns(row: Row): seq<string>
  {
    seq(|row|, k requires 0 <= k < |row| => row[k].column)
  }

  /** Every row of one write has the keys of the first row, in the same order. */
  predicate SameColumns(data: seq<Row>)
  {
    forall k :: 0 <= k < |data| ==> Columns(data[k]) == Columns(data[0])
  }

  /** The two open modes the extract loop uses: 'w' truncates, 'a' appends. */
  datatype Mode = Truncate | Append

  /** One line of the CSV file. */
  datatype Line = HeaderLine(columns: seq<string>) | RecordLine(row: Row)

  /** A file on disk: whether it exists, and its lines. */
  datatype FileState = FileState(present: bool, lines: seq<Line>)

  /** A file that does not exist has no lines. */
  predicate Consistent(f: FileState)
  {
    f.present || f.lines == []
  }

  /** One record line per row, in order. */
  function Records(data: seq<Row>): seq<Line>
  {
    seq(|data|, k requires 0 <= k < |data| => RecordLine(data[k]))
  }

  /**
   * The file after write_to_csv(data, filename, mode): nothing happens for
   * empty data; otherwise 'w' replaces the file by a header taken from the
   * first row's keys followed by the rows, and 'a' adds the rows after the
   * existing lines. Opening in either mode creates a missing file.
   */
  function AfterWrite(f: FileState, data: seq<Row>, mode: Mode): FileState
  {
    if data == [] then f
    else match mode
      case Truncate => FileState(true, [HeaderLine(Columns(data[0]))] + Records(data))
      case Append => FileState(true, f.lines + Records(data))
  }

  /** The number of header lines in a file. */
  function HeaderCount(lines: seq<Line>): nat
  {
    if lines == [] then 0 else (if lines[0].HeaderLine? then 1 else 0) + HeaderCount(lines[1..])
  }

  /**
   * A well-formed table: one header line first, then only record lines whose
   * keys are the header's columns.
   */
  predicate IsTable(lines: seq<Line>)
  {
    && |lines| >= 1
    && lines[0].HeaderLine?
    && forall k :: 1 <= k < |lines| ==> lines[k].RecordLine? && Columns(lines[k].row) == lines[0].columns
  }

  /** The rows of a well-formed table (one header line, then records with its columns), in order; None for any other file. */
  function ReadTable(lines: seq<Line>): Option<seq<Row>>
  {
    if IsTable(lines) then Some(seq(|lines| - 1, k requires 0 <= k < |lines| - 1 => lines[k + 1].row))
    else None
  }

  /** An empty write leaves the file as it was, whatever the mode. */
  lemma {:induction false} WriteEmptyIsNoOp(f: FileState, mode: Mode)
    ensures AfterWrite(f, [], mode) == f
  {
  }

  /** A write never leaves lines in a file that does not exist. */
  lemma {:induction false} AfterWriteConsistent(f: FileState, data: seq<Row>, mode: Mode)
    requires Consistent(f)
    ensures Consistent(AfterWrite(f, data, mode))
    ensures data != [] ==> AfterWrite(f, data, mode).present
  {
  }

  /** Record lines are never header lines. */
  lemma {:induction false} RecordsHaveNoHeader(data: seq<Row>)
    ensures HeaderCount(Records(data)) == 0
  {
    if data != [] {
      assert Records(data)[1..] == Records(data[1..]);
      RecordsHaveNoHeader(data[1..]);
    }
  }

  /** Header lines of a concatenation add up. */
  lemma {:induction false} HeaderCountAppend(a: seq<Line>, b: seq<Line>)
    ensures HeaderCount(a + b) == HeaderCount(a) + HeaderCount(b)
  {
    if a == [] {
      assert a + b == b;
    } else {
      assert (a + b)[1..] == a[1..] + b;
      HeaderCountAppend(a[1..], b);
    }
  }

  /** Records distributes over concatenation of row lists. */
  lemma {:induction false} RecordsAppend(a: seq<Row>, b: seq<Row>)
    ensures Records(a + b) == Records(a) + Records(b)
  {
  }

  /**
   * An 'a' write after another write of rows amounts to one write of both
   * row lists in the first write's mode (when the first write is an empty
   * 'w', it did nothing and is taken as an 'a').
   */
  lemma {:induction false} AppendAfterWrite(f: FileState, first: seq<Row>, second: seq<Row>, mode: Mode)
    requires mode == Append || first != []
    ensures AfterWrite(AfterWrite(f, first, mode), second, Append) == AfterWrite(f, first + second, mode)
  {
    if second == [] {
      assert first + second == first;
    } else if first == [] {
      assert first + second == second;
    } else {
      RecordsAppend(first, second);
      assert (first + second)[0] == first[0];
    }
  }

  /**
   * A 'w' write of rows sharing one key set makes the file a table with
   * exactly one header line, and reading it back gives the rows written.
   */
  lemma {:induction false} WriteTruncateReadBack(f: FileState, data: seq<Row>)
    requires data != [] && SameColumns(data)
    ensures AfterWrite(f, data, Truncate).present
    ensures HeaderCount(AfterWrite(f, data, Truncate).lines) == 1
    ensures ReadTable(AfterWrite(f, data, Truncate).lines) == Some(data)
  {
    var lines := AfterWrite(f, data, Truncate).lines;
    HeaderCountAppend([HeaderLine(Columns(data[0]))], Records(data));
    RecordsHaveNoHeader(data);
    assert IsTable(lines);
    var rows := ReadTable(lines).value;
    assert forall k :: 0 <= k < |data| ==> rows[k] == lines[k + 1].row == data[k];
    assert rows == data;
  }

  /**
   * An 'a' write keeps every existing line in place, adds the rows after
   * them and adds no header line.
   */
  lemma {:induction false} WriteAppendKeepsContent(f: FileState, data: seq<Row>)
    ensures var g := AfterWrite(f, data, Append);
      && g.lines[..|f.lines|] == f.lines
      && g.lines[|f.lines|..] == Records(data)
      && HeaderCount(g.lines) == HeaderCount(f.lines)
  {
    var g := AfterWrite(f, data, Append);
    assert g.lines == f.lines + Records(data);
    HeaderCountAppend(f.lines, Records(data));
    RecordsHaveNoHeader(data);
  }

  /**
   * Appending rows with the header's columns to a table gives a table whose
   * rows are the old rows followed by the new ones.
   */
  lemma {:induction false} WriteAppendReadBack(f: FileState, before: seq<Row>, data: seq<Row>)
    requires ReadTable(f.lines) == Some(before)
    requires forall k :: 0 <= k < |data| ==> Columns(data[k]) == f.lines[0].columns
    ensures ReadTable(AfterWrite(f, data, Append).lines) == Some(before + data)
  {
    var lines := AfterWrite(f, data, Append).lines;
    if data != [] {
      assert lines == f.lines + Records(data);
      assert IsTable(lines);
      var rows := ReadTable(lines).value;
      var n := |before|;
      assert forall k :: 0 <= k < n ==> rows[k] == f.lines[k + 1].row == before[k];
      assert forall k :: n <= k < n + |data| ==> rows[k] == lines[k + 1].row == data[k - n];
      assert rows == before + data;
    }
  }

  /** An output file, updated in place by write_to_csv. */
  class CsvFile {
    const name: string
    var present: bool
    var lines: seq<Line>

    /** The file as a value. */
    function State(): FileState
      reads this
    {
      FileState(present, lines)
    }

    constructor (name: string, initial: FileState)
      requires Consistent(initial)
      ensures this.name == name && State() == initial
    {
      this.name := name;
      present := initial.present;
      lines := initial.lines;
    }

    /** write_to_csv(data, name, mode). */
    method Write(data: seq<Row>, mode: Mode)
      requires SameColumns(data)
      modifies this
      ensures State() == AfterWrite(old(State()), data, mode)
    {
      if |data| == 0 {
        return;
      }
      var fieldnames := Columns(data[0]);
      present := true;
      if mode == Truncate {
        lines := [HeaderLine(fieldnames)];
      }
      ghost var afterOpen := lines;
      for k := 0 to |data|
        invariant present
        invariant lines == afterOpen + Records(data[..k])
      {
        assert Records(data[..k + 1]) == Records(data[..k]) + [RecordLine(data[k])];
        lines := lines + [RecordLine(data[k])];
      }
      assert data[..|data|] == data;
    }
  }
}
