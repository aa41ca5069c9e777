/** One record of a CSV file: its own mutable field values, read through a shared header. */
module CsvRow {
  import opened Wrappers
  import opened Exceptions
  import opened Constants
  import opened Text
  import opened CsvEntry

  /** The argument of an indexer call, by its runtime type. */
  datatype Key =
    | ByIndex(index: int)
    | ByName(name: string)
    /** A `null` index argument. */
    | NullIndex
    /** An index argument that is neither an `int` nor a `string`. */
    | OtherIndex

  /** The soft outcome of a lookup: a value, or "not found" (`false` with a `null` result). */
  datatype Lookup = Found(value: string) | NotFound

  /** The target type of an explicit conversion. */
  datatype ConvertTarget = ToStringList | ToText | OtherType

  /** The value produced by a successful conversion. */
  datatype Converted = AsList(fields: seq<string>) | AsText(text: string)

  /**
   * What the row constructor computes: the comma-split of the content, provided
   * neither argument is null and the field count matches the header's.
   */
  function ParseRow(rowContent: Option<string>, header: Option<seq<string>>): (r: Result<seq<string>, Exception>)
    ensures rowContent.None? ==> r == Failure(ArgumentNull("rowContent"))
    ensures rowContent.Some? && header.None? ==> r == Failure(ArgumentNull("header"))
    ensures rowContent.Some? && header.Some? ==>
      (r.Success? <==> Occurrences(rowContent.value, Separator) + 1 == |header.value|)
    ensures rowContent.Some? && header.Some? && r.Failure? ==> r.error == InvalidData(RowMismatchMessage)
    ensures r.Success? ==>
      && |r.value| == |header.value| >= 1
      && NoneContains(r.value, Separator)
      && Join(r.value, Separator) == rowContent.value
  {
    if rowContent.None? then Failure(ArgumentNull("rowContent"))
    else if header.None? then Failure(ArgumentNull("header"))
    else
      var fields := Split(rowContent.value, Separator);
      if |header.value| != |fields| then Failure(InvalidData(RowMismatchMessage))
      else
        JoinSplit(rowContent.value, Separator);
        Success(fields)
  }

  /** The `name=value` pieces of the debug string, one per header column. */
  function DebugPairs(header: seq<string>, fields: seq<string>): (r: seq<string>)
    requires |fields| == |header|
    ensures |r| == |header|
    ensures forall k :: 0 <= k < |r| ==> r[k] == header[k] + "=" + fields[k]
  {
    seq(|header|, k requires 0 <= k < |header| => header[k] + "=" + fields[k])
  }

  /** The debug string: the `name=value` pieces joined by the separator. */
  function DebugString(header: seq<string>, fields: seq<string>): string
    requires |fields| == |header|
  {
    Join(DebugPairs(header, fields), Separator)
  }

  /**
   * When neither the header names nor the values contain the separator, the
   * debug string splits back into exactly one `name=value` piece per column.
   */
  lemma DebugStringSplits(header: seq<string>, fields: seq<string>)
    requires |fields| == |header| >= 1
    requires NoneContains(header, Separator) && NoneContains(fields, Separator)
    ensures Split(DebugString(header, fields), Separator) == DebugPairs(header, fields)
  {
    var pairs := DebugPairs(header, fields);
    forall k | 0 <= k < |pairs| ensures Separator !in pairs[k] {
      assert pairs[k] == header[k] + "=" + fields[k];
    }
    SplitJoin(pairs, Separator);
  }

  /**
   * Reading a column by name and reading it by the position of that name give
   * the same value.
   */
  lemma GetByNameAgreesWithIndex(r: DynamicCsvRow, name: string)
    requires r.Valid() && name in r.header
    ensures r.TryGetIndex(ByName(name)) == Success(r.TryGetMember(name))
    ensures r.TryGetIndex(ByIndex(IndexOf(r.header, name))) == Success(r.TryGetMember(name))
  {
  }

  class DynamicCsvRow {
    /** The file's header, shared by every row and never changed through a row. */
    const header: seq<string>
    /** This row's field values, in header order. */
    var row: seq<string>

    /** The row invariant established by construction: one value per header column. */
    ghost predicate Valid()
      reads this
    {
      |row| == |header|
    }

    /** Builds a row from content whose comma-split already matches the header. */
    constructor (rowContent: string, header: seq<string>)
      requires |Split(rowContent, Separator)| == |header|
      ensures Valid()
      ensures this.header == header && row == Split(rowContent, Separator)
    {
      this.header := header;
      row := Split(rowContent, Separator);
    }

    /**
     * The C# constructor with its argument checks: a null argument or a field
     * count that differs from the header's is an exception and builds nothing.
     */
    static method Create(rowContent: Option<string>, header: Option<seq<string>>)
      returns (r: Result<DynamicCsvRow, Exception>)
      ensures r.Failure? <==> ParseRow(rowContent, header).Failure?
      ensures r.Failure? ==> r.error == ParseRow(rowContent, header).error
      ensures r.Success? ==>
        && fresh(r.value) && r.value.Valid()
        && r.value.header == header.value
        && r.value.row == ParseRow(rowContent, header).value
        && r.value.ToString() == rowContent.value
    {
      var parsed := ParseRow(rowContent, header);
      if parsed.Failure? {
        return Failure(parsed.error);
      }
      var created := new DynamicCsvRow(rowContent.value, header.value);
      return Success(created);
    }

    /** Member access by name: the value under the first column of that name, or not-found. */
    function TryGetMember(name: string): (r: Lookup)
      reads this
      requires Valid()
      ensures r.Found? <==> name in header
      ensures forall i :: IsFirstIndex(header, name, i) ==> r == Found(row[i])
    {
      var i := IndexOf(header, name);
      if i == -1 then NotFound
      else
        forall j | IsFirstIndex(header, name, j) ensures j == i {
          FirstIndexUnique(header, name, i, j);
        }
        Found(row[i])
    }

    /**
     * Member assignment by name: on a hit, exactly the first column of that
     * name is overwritten and reads back as the new value; on a miss nothing changes.
     */
    method TrySetMember(name: string, value: string) returns (ok: bool)
      requires Valid()
      modifies this
      ensures Valid()
      ensures ok <==> name in header
      ensures !ok ==> row == old(row)
      ensures forall i :: IsFirstIndex(header, name, i) ==> row == old(row)[i := value]
      ensures ok ==> TryGetMember(name) == Found(value)
    {
      var i := IndexOf(header, name);
      if i == -1 {
        return false;
      }
      forall j | IsFirstIndex(header, name, j) ensures j == i {
        FirstIndexUnique(header, name, i, j);
      }
      row := row[i := value];
      return true;
    }

    /**
     * Indexer read. An integer reads that position, a string reads the column
     * of that name; both throw when the position is out of range, which for an
     * unknown name is always the case. Null or other index types give not-found.
     */
    function TryGetIndex(key: Key): (r: Result<Lookup, Exception>)
      reads this
      requires Valid()
      ensures (key.NullIndex? || key.OtherIndex?) ==> r == Success(NotFound)
      ensures key.ByIndex? ==>
        (r.Success? <==> 0 <= key.index < |row|) &&
        (r.Success? ==> r.value == Found(row[key.index])) &&
        (r.Failure? ==> r.error == ArgumentOutOfRange)
      ensures key.ByName? ==>
        (r.Success? <==> key.name in header) &&
        (r.Success? ==> r.value == TryGetMember(key.name)) &&
        (r.Failure? ==> r.error == ArgumentOutOfRange)
    {
      match key
      case NullIndex => Success(NotFound)
      case ByIndex(i) =>
        if 0 <= i < |row| then Success(Found(row[i])) else Failure(ArgumentOutOfRange)
      case ByName(name) =>
        var i := IndexOf(header, name);
        if 0 <= i < |row| then Success(Found(row[i])) else Failure(ArgumentOutOfRange)
      case OtherIndex => Success(NotFound)
    }

    /**
     * Indexer write. An in-range integer writes that position yet reports
     * `false`; an out-of-range one throws and changes nothing. A string behaves
     * like `TrySetMember`. Null or other index types report `false`.
     */
    method TrySetIndex(key: Key, value: string) returns (r: Result<bool, Exception>)
      requires Valid()
      modifies this
      ensures Valid()
      ensures (key.NullIndex? || key.OtherIndex?) ==> r == Success(false) && row == old(row)
      ensures key.ByIndex? && 0 <= key.index < |old(row)| ==>
        r == Success(false) && row == old(row)[key.index := value]
      ensures key.ByIndex? && !(0 <= key.index < |old(row)|) ==>
        r == Failure(ArgumentOutOfRange) && row == old(row)
      ensures key.ByName? ==>
        && r.Success?
        && (r.value <==> key.name in header)
        && (!r.value ==> row == old(row))
        && (forall i :: IsFirstIndex(header, key.name, i) ==> row == old(row)[i := value])
    {
      match key
      case ByIndex(i) =>
        if !(0 <= i < |row|) {
          return Failure(ArgumentOutOfRange);
        }
        row := row[i := value];
        return Success(false);
      case ByName(name) =>
        var ok := TrySetMember(name, value);
        return Success(ok);
      case NullIndex =>
        return Success(false);
      case OtherIndex =>
        return Success(false);
    }

    /**
     * Explicit conversion: to `List<string>` gives the field values, to
     * `string` gives the same text as `ToString`; any other type is refused.
     */
    function TryConvert(target: ConvertTarget): (r: Option<Converted>)
      reads this
      ensures r.None? <==> target.OtherType?
      ensures target.ToStringList? ==> r == Some(AsList(row))
      ensures target.ToText? ==> r == Some(AsText(ToString()))
    {
      match target
      case ToStringList => Some(AsList(row))
      case ToText => Some(AsText(Join(row, Separator)))
      case OtherType => None
    }

    /**
     * The entries in header order, each pairing a column name with its value.
     */
    function GetEnumerator(): (r: seq<DynamicCsvEntry>)
      reads this
      requires Valid()
      ensures |r| == |header|
      ensures forall k :: 0 <= k < |r| ==> r[k].Header == header[k] && r[k].Content == row[k]
    {
      var names, values := header, row;
      seq(|names|, k requires 0 <= k < |names| => MakeEntry(values[k], names[k]))
    }

    /**
     * A dictionary from column name to value. Adding a name twice throws, so
     * it succeeds exactly when the header has no repeated name.
     */
    method ToDictionary() returns (r: Result<map<string, string>, Exception>)
      requires Valid()
      ensures r.Success? <==> Distinct(header)
      ensures r.Success? ==> r.value.Keys == set k | 0 <= k < |header| :: header[k]
      ensures r.Success? ==> forall k :: 0 <= k < |header| ==> r.value[header[k]] == row[k]
      ensures r.Failure? ==>
        && r.error.DuplicateKey?
        && exists b :: 0 <= b < |header| && Distinct(header[..b]) && header[b] in header[..b] && r.error.key == header[b]
    {
      var dict: map<string, string> := map[];
      for i := 0 to |header|
        invariant dict.Keys == set k | 0 <= k < i :: header[k]
        invariant forall k :: 0 <= k < i ==> dict[header[k]] == row[k]
        invariant Distinct(header[..i])
      {
        if header[i] in dict {
          ghost var k :| 0 <= k < i && header[k] == header[i];
          return Failure(DuplicateKey(header[i]));
        }
        dict := dict[header[i] := row[i]];
      }
      assert header[..|header|] == header;
      return Success(dict);
    }

    /** `name=value` for every column, joined by the separator; empty for a row without fields. */
    method ToDebugString() returns (s: string)
      requires Valid()
      ensures s == DebugString(header, row)
    {
      if |row| == 0 {
        return "";
      }
      var sb := new string[|header|];
      for i := 0 to |header|
        invariant forall k :: 0 <= k < i ==> sb[k] == header[k] + "=" + row[k]
      {
        sb[i] := header[i] + "=" + row[i];
      }
      assert sb[..] == DebugPairs(header, row);
      s := Join(sb[..], Separator);
    }

    /**
     * The values joined by the separator (the empty-row guard gives the same
     * text); when no value contains the separator, splitting it gives the values back.
     */
    function ToString(): (s: string)
      reads this
      ensures s == Join(row, Separator)
      ensures |row| >= 1 && NoneContains(row, Separator) ==> Split(s, Separator) == row
    {
      if |row| > 0 then
        if NoneContains(row, Separator) then
          SplitJoin(row, Separator);
          Join(row, Separator)
        else
          Join(row, Separator)
      else ""
    }
  }
}
