/** Loading a CSV text: one header line, then one row per non-blank line. */
module CsvFile {
  import opened Wrappers
  import opened Exceptions
  import opened Constants
  import opened Text
  import opened CsvRow

  /** The observable result of a load: headers, the field values of each row, and the line counter. */
  datatype Table = Table(Headers: seq<string>, Rows: seq<seq<string>>, Count: int)

  /** The non-blank lines, in order. */
  function NonBlank(lines: seq<string>): (r: seq<string>)
    ensures |r| <= |lines|
    ensures forall k :: 0 <= k < |r| ==> !IsWhiteSpace(r[k])
  {
    if lines == [] then []
    else
      var init := NonBlank(lines[..|lines| - 1]);
      if IsWhiteSpace(lines[|lines| - 1]) then init else init + [lines[|lines| - 1]]
  }

  /** The number of blank (empty or whitespace-only) lines; together with the non-blank ones they are all the lines. */
  function BlankCount(lines: seq<string>): (n: nat)
    ensures n + |NonBlank(lines)| == |lines|
  {
    if lines == [] then 0
    else BlankCount(lines[..|lines| - 1]) + (if IsWhiteSpace(lines[|lines| - 1]) then 1 else 0)
  }

  /** Every non-blank line has exactly as many fields as the header. */
  predicate RowsFit(header: seq<string>, lines: seq<string>) {
    forall j :: 0 <= j < |lines| && !IsWhiteSpace(lines[j]) ==>
      Occurrences(lines[j], Separator) + 1 == |header|
  }

  /**
   * The row-building part of the load loop over the lines after the header:
   * blank lines are skipped, every other line becomes a row, and the first
   * mismatching line aborts with the row constructor's exception.
   */
  function ParseRows(header: seq<string>, lines: seq<string>): (r: Result<seq<seq<string>>, Exception>)
    ensures r.Failure? ==> r.error == InvalidData(RowMismatchMessage)
  {
    if lines == [] then Success([])
    else
      match ParseRows(header, lines[..|lines| - 1])
      case Failure(e) => Failure(e)
      case Success(rows) =>
        var last := lines[|lines| - 1];
        if IsWhiteSpace(last) then Success(rows)
        else
          match ParseRow(Some(last), Some(header))
          case Failure(e) => Failure(e)
          case Success(fields) => Success(rows + [fields])
  }

  /**
   * On success there is one row per non-blank line, in order: each has the
   * header's width and is the comma-split of its line.
   */
  lemma {:induction false} ParseRowsShape(header: seq<string>, lines: seq<string>)
    requires ParseRows(header, lines).Success?
    ensures |ParseRows(header, lines).value| == |NonBlank(lines)|
    ensures forall k :: 0 <= k < |NonBlank(lines)| ==>
      && |ParseRows(header, lines).value[k]| == |header|
      && NoneContains(ParseRows(header, lines).value[k], Separator)
      && Join(ParseRows(header, lines).value[k], Separator) == NonBlank(lines)[k]
  {
    if lines != [] {
      ParseRowsShape(header, lines[..|lines| - 1]);
    }
  }

  /**
   * One more line after a successful prefix: skipped when blank, appended as a
   * row when it fits, and otherwise the whole sequence of lines fails.
   */
  lemma ParseRowsStep(header: seq<string>, lines: seq<string>, i: int, rows: seq<seq<string>>)
    requires 0 <= i < |lines|
    requires ParseRows(header, lines[..i]) == Success(rows)
    ensures IsWhiteSpace(lines[i]) ==> ParseRows(header, lines[..i + 1]) == Success(rows)
    ensures !IsWhiteSpace(lines[i]) && ParseRow(Some(lines[i]), Some(header)).Success? ==>
      ParseRows(header, lines[..i + 1]) == Success(rows + [ParseRow(Some(lines[i]), Some(header)).value])
    ensures !IsWhiteSpace(lines[i]) && ParseRow(Some(lines[i]), Some(header)).Failure? ==>
      ParseRows(header, lines).Failure?
  {
    assert lines[..i + 1][..i] == lines[..i];
    if !IsWhiteSpace(lines[i]) && ParseRow(Some(lines[i]), Some(header)).Failure? {
      MismatchFails(header, lines, i);
    }
  }

  /** Building the rows succeeds exactly when every non-blank line fits the header. */
  lemma {:induction false} ParseRowsSucceedsIff(header: seq<string>, lines: seq<string>)
    ensures ParseRows(header, lines).Success? <==> RowsFit(header, lines)
  {
    if lines != [] {
      var init := lines[..|lines| - 1];
      ParseRowsSucceedsIff(header, init);
      assert forall j :: 0 <= j < |init| ==> init[j] == lines[j];
    }
  }

  /** A single non-blank line whose field count differs from the header's makes building the rows fail. */
  lemma MismatchFails(header: seq<string>, lines: seq<string>, j: int)
    requires 0 <= j < |lines| && !IsWhiteSpace(lines[j])
    requires Occurrences(lines[j], Separator) + 1 != |header|
    ensures ParseRows(header, lines).Failure?
  {
    ParseRowsSucceedsIff(header, lines);
  }

  /**
   * `Load(StreamReader)` as a function of the stream's lines (`None` for a null
   * stream; an empty sequence for a stream whose first read is end-of-stream).
   */
  function LoadSpec(stream: Option<seq<string>>): (r: Result<Table, Exception>)
    ensures stream.None? ==> r == Failure(ArgumentNull("filestream"))
    ensures stream.Some? && (|stream.value| == 0 || IsWhiteSpace(stream.value[0])) ==>
      r == Failure(InvalidData(EmptyHeaderMessage))
    ensures r.Failure? && stream.Some? && |stream.value| > 0 && !IsWhiteSpace(stream.value[0]) ==>
      r.error == InvalidData(RowMismatchMessage)
    ensures r.Success? ==>
      && stream.Some? && |stream.value| >= 1
      && Join(r.value.Headers, Separator) == stream.value[0]
      && NoneContains(r.value.Headers, Separator)
      && |r.value.Headers| >= 1
      && r.value.Count == |stream.value| - 1
      && r.value.Count - |r.value.Rows| == BlankCount(stream.value[1..])
      && |r.value.Rows| == |NonBlank(stream.value[1..])|
      && forall k :: 0 <= k < |r.value.Rows| ==>
           && |r.value.Rows[k]| == |r.value.Headers|
           && NoneContains(r.value.Rows[k], Separator)
           && Join(r.value.Rows[k], Separator) == NonBlank(stream.value[1..])[k]
  {
    if stream.None? then Failure(ArgumentNull("filestream"))
    else
      var lines := stream.value;
      if |lines| == 0 || IsWhiteSpace(lines[0]) then Failure(InvalidData(EmptyHeaderMessage))
      else
        var headers := Split(lines[0], Separator);
        JoinSplit(lines[0], Separator);
        match ParseRows(headers, lines[1..])
        case Failure(e) => Failure(e)
        case Success(rows) =>
          ParseRowsShape(headers, lines[1..]);
          Success(Table(headers, rows, |lines| - 1))
  }

  /**
   * A load succeeds exactly when the stream is non-null, its first line is
   * present and not blank, and every later non-blank line has as many fields
   * as the header line.
   */
  lemma LoadSucceedsIff(stream: Option<seq<string>>)
    ensures LoadSpec(stream).Success? <==>
      && stream.Some? && |stream.value| >= 1 && !IsWhiteSpace(stream.value[0])
      && forall j :: 1 <= j < |stream.value| && !IsWhiteSpace(stream.value[j]) ==>
           Occurrences(stream.value[j], Separator) == Occurrences(stream.value[0], Separator)
  {
    if stream.Some? && |stream.value| >= 1 && !IsWhiteSpace(stream.value[0]) {
      var lines := stream.value;
      var headers := Split(lines[0], Separator);
      ParseRowsSucceedsIff(headers, lines[1..]);
      assert forall j :: 1 <= j < |lines| ==> lines[1..][j - 1] == lines[j];
    }
  }

  /** `Load(string)` as a function: a null or blank file name is refused before any line is read. */
  function LoadPathSpec(filename: Option<string>, fileLines: seq<string>): (r: Result<Table, Exception>)
    ensures filename.None? || IsWhiteSpace(filename.value) ==> r == Failure(ArgumentNull("filename"))
    ensures filename.Some? && !IsWhiteSpace(filename.value) ==> r == LoadSpec(Some(fileLines))
  {
    if filename.None? || IsWhiteSpace(filename.value) then Failure(ArgumentNull("filename"))
    else LoadSpec(Some(fileLines))
  }

  class DynamicCsvFile {
    /** The raw split of the header line. */
    var Headers: seq<string>
    /** One row per non-blank data line, in file order. */
    var Rows: seq<DynamicCsvRow>
    /** Lines read after the header, blank ones included. */
    var Count: int

    /** Every row reads through this file's header and has one value per column; no blank line is lost. */
    ghost predicate Valid()
      reads this, Rows
    {
      && |Rows| <= Count
      && forall k :: 0 <= k < |Rows| ==> Rows[k].header == Headers && Rows[k].Valid()
    }

    /** The file's rows and their field values are exactly those of `t`. */
    ghost predicate Holds(t: Table)
      reads this, Rows
    {
      && Headers == t.Headers
      && Count == t.Count
      && |Rows| == |t.Rows|
      && forall k :: 0 <= k < |Rows| ==> Rows[k].row == t.Rows[k]
    }

    /** The private constructor: an empty file. */
    constructor ()
      ensures Headers == [] && Rows == [] && Count == 0
    {
      Headers, Rows, Count := [], [], 0;
    }

    /**
     * `Load(StreamReader)`: reads the header line, then every remaining line,
     * counting each one and building a row for each non-blank one. Any failure
     * aborts the load and no file is returned.
     */
    static method Load(stream: Option<seq<string>>) returns (r: Result<DynamicCsvFile, Exception>)
      ensures r.Failure? <==> LoadSpec(stream).Failure?
      ensures r.Failure? ==> r.error == LoadSpec(stream).error
      ensures r.Success? ==>
        && fresh(r.value) && r.value.Valid()
        && r.value.Holds(LoadSpec(stream).value)
        && (forall k :: 0 <= k < |r.value.Rows| ==> fresh(r.value.Rows[k]))
        && (forall a, b :: 0 <= a < b < |r.value.Rows| ==> r.value.Rows[a] != r.value.Rows[b])
    {
      if stream.None? {
        return Failure(ArgumentNull("filestream"));
      }
      var lines := stream.value;
      var csvFile := new DynamicCsvFile();
      if |lines| == 0 || IsWhiteSpace(lines[0]) {
        return Failure(InvalidData(EmptyHeaderMessage));
      }
      csvFile.Headers := Split(lines[0], Separator);
      var failure := csvFile.ReadRows(lines[1..]);
      if failure.Some? {
        return Failure(failure.value);
      }
      return Success(csvFile);
    }

    /**
     * The loop of `Load` over the lines after the header: counts every line,
     * skips blank ones and appends a fresh row for each other one, stopping at
     * the first row whose field count does not match.
     */
    method ReadRows(lines: seq<string>) returns (failure: Option<Exception>)
      requires Rows == [] && Count == 0
      modifies this
      ensures Headers == old(Headers)
      ensures failure.Some? <==> ParseRows(Headers, lines).Failure?
      ensures failure.Some? ==> failure.value == ParseRows(Headers, lines).error
      ensures failure.None? ==>
        && Count == |lines|
        && |Rows| == |ParseRows(Headers, lines).value|
        && (forall k :: 0 <= k < |Rows| ==> Rows[k].row == ParseRows(Headers, lines).value[k])
        && (forall k :: 0 <= k < |Rows| ==> Rows[k].header == Headers && Rows[k].Valid())
        && (forall k :: 0 <= k < |Rows| ==> fresh(Rows[k]))
        && (forall a, b :: 0 <= a < b < |Rows| ==> Rows[a] != Rows[b])
    {
      ghost var rows: seq<seq<string>> := [];
      var i := 0;
      while i < |lines|
        invariant 0 <= i <= |lines|
        invariant Headers == old(Headers)
        invariant Count == i
        invariant ParseRows(Headers, lines[..i]) == Success(rows)
        invariant |Rows| == |rows|
        invariant forall k :: 0 <= k < |Rows| ==> Rows[k].row == rows[k]
        invariant forall k :: 0 <= k < |Rows| ==> Rows[k].header == Headers && Rows[k].Valid()
        invariant forall k :: 0 <= k < |Rows| ==> fresh(Rows[k])
        invariant forall a, b :: 0 <= a < b < |Rows| ==> Rows[a] != Rows[b]
      {
        var line := lines[i];
        ParseRowsStep(Headers, lines, i, rows);
        Count := Count + 1;
        if IsWhiteSpace(line) {
          i := i + 1;
          continue;
        }
        var created := DynamicCsvRow.Create(Some(line), Some(Headers));
        if created.Failure? {
          return Some(created.error);
        }
        Rows := Rows + [created.value];
        rows := rows + [created.value.row];
        i := i + 1;
      }
      assert lines[..i] == lines;
      return None;
    }

    /** `Load(string)`: the file name check, then `Load` over the named file's lines. */
    static method LoadPath(filename: Option<string>, fileLines: seq<string>) returns (r: Result<DynamicCsvFile, Exception>)
      ensures r.Failure? <==> LoadPathSpec(filename, fileLines).Failure?
      ensures r.Failure? ==> r.error == LoadPathSpec(filename, fileLines).error
      ensures r.Success? ==>
        && fresh(r.value) && r.value.Valid()
        && r.value.Holds(LoadPathSpec(filename, fileLines).value)
    {
      if filename.None? || IsWhiteSpace(filename.value) {
        return Failure(ArgumentNull("filename"));
      }
      r := Load(Some(fileLines));
    }

    /** Enumeration of the file: the rows, in insertion order, unfiltered. */
    function GetEnumerator(): (r: seq<DynamicCsvRow>)
      reads this
      ensures |r| == |Rows| && forall k :: 0 <= k < |r| ==> r[k] == Rows[k]
    {
      Rows
    }
  }
}
