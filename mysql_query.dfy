/** The MySQL result-set cursor: it executes a statement (or takes over one of
    the connection's last raw results), accumulates raw result buffers, builds
    the column catalog, and reads any record of the logical row stream. */
module MySQL {
  import opened Values
  import opened RowStream

  /** Driver flag bits of a field (`ENUM_FLAG` and `SET_FLAG` of the MySQL C API). */
  const ENUM_FLAG: bv32 := 256
  const SET_FLAG: bv32 := 2048

  /** Servers older than this do not report the unaliased column name. */
  const ORG_NAME_MIN_SERVER_VERSION: nat := 40100

  /** Logical data type of a column. The driver type-code table itself is not
      part of this model; `Mapped` stands for whatever it yields. */
  datatype DataTypeIndex = Enum | Set | Mapped(id: nat)

  /** One entry of the column catalog. */
  datatype QueryColumn = QueryColumn(
    name: string,
    orgName: string,
    flags: bv32,
    dataTypeIndex: DataTypeIndex,
    dataTypeCategoryIndex: nat)

  datatype QueryError =
    | ColumnNotAvailable(index: nat, columnCount: nat, rowCount: Option<nat>)

  datatype Result<T> = Ok(value: T) | Err(error: QueryError)

  datatype Outcome = Pass | Fail(error: QueryError)

  /** Classification of a field: the enum flag wins over the set flag, and
      both win over the driver's type code. */
  function DataTypeOfField(field: Field, typeMapping: nat -> DataTypeIndex): (r: DataTypeIndex)
    ensures field.flags & ENUM_FLAG != 0 ==> r == Enum
    ensures field.flags & ENUM_FLAG == 0 && field.flags & SET_FLAG != 0 ==> r == Set
    ensures field.flags & (ENUM_FLAG | SET_FLAG) == 0 ==> r == typeMapping(field.typeCode)
  {
    if field.flags & ENUM_FLAG != 0 then Enum
    else if field.flags & SET_FLAG != 0 then Set
    else typeMapping(field.typeCode)
  }

  /** The raw result `execute` works on: the one at index `useRawResult`, or
      the first one after running the statement when no index is given; none
      when the connection holds fewer results. */
  function LastResult(useRawResult: Option<nat>, lastResults: seq<RawResult>): (r: Option<RawResult>)
    ensures r.Some? <==> |lastResults| > (if useRawResult.Some? then useRawResult.value else 0)
    ensures r.Some? ==> r.value == lastResults[if useRawResult.Some? then useRawResult.value else 0]
  {
    var index := if useRawResult.Some? then useRawResult.value else 0;
    if |lastResults| > index then Some(lastResults[index]) else None
  }

  /** `names` maps every column name to the LAST column carrying it, as
      repeated inserts into the name index leave it. */
  ghost predicate IsNameIndex(names: map<string, nat>, cols: seq<QueryColumn>)
  {
    && (forall n :: n in names ==> names[n] < |cols| && cols[names[n]].name == n)
    && (forall n, j :: n in names && names[n] < j < |cols| ==> cols[j].name != n)
    && (forall j :: 0 <= j < |cols| ==> cols[j].name in names)
  }

  /** `columns` and `names` are the column catalog of `fields`: one column per
      field, in field order, and the name index over them. */
  ghost predicate IsCatalogOf(columns: seq<QueryColumn>, names: map<string, nat>, fields: seq<Field>,
                              serverVersion: nat, typeMapping: nat -> DataTypeIndex,
                              categoryOf: DataTypeIndex -> nat)
  {
    && |columns| == |fields|
    && (forall i :: 0 <= i < |fields| ==>
          && columns[i].name == fields[i].name
          && columns[i].orgName == (if serverVersion >= ORG_NAME_MIN_SERVER_VERSION
                                    then fields[i].orgName else fields[i].name)
          && columns[i].flags == fields[i].flags
          && columns[i].dataTypeIndex == DataTypeOfField(fields[i], typeMapping)
          && columns[i].dataTypeCategoryIndex == categoryOf(columns[i].dataTypeIndex))
    && IsNameIndex(names, columns)
  }

  /** The column catalog of a raw result. */
  method BuildCatalog(fields: seq<Field>, serverVersion: nat, typeMapping: nat -> DataTypeIndex,
                      categoryOf: DataTypeIndex -> nat)
    returns (columns: seq<QueryColumn>, columnIndexes: map<string, nat>)
    ensures IsCatalogOf(columns, columnIndexes, fields, serverVersion, typeMapping, categoryOf)
  {
    columns := [];
    columnIndexes := map[];
    var i := 0;
    while i < |fields|
      invariant 0 <= i <= |fields|
      invariant |columns| == i
      invariant forall j :: 0 <= j < i ==>
        && columns[j].name == fields[j].name
        && columns[j].orgName == (if serverVersion >= ORG_NAME_MIN_SERVER_VERSION
                                  then fields[j].orgName else fields[j].name)
        && columns[j].flags == fields[j].flags
        && columns[j].dataTypeIndex == DataTypeOfField(fields[j], typeMapping)
        && columns[j].dataTypeCategoryIndex == categoryOf(columns[j].dataTypeIndex)
      invariant IsNameIndex(columnIndexes, columns)
    {
      var field := fields[i];
      var fieldName := field.name;
      columnIndexes := columnIndexes[fieldName := i];
      var orgName := if serverVersion >= ORG_NAME_MIN_SERVER_VERSION then field.orgName else fieldName;
      var dataType := DataTypeOfField(field, typeMapping);
      columns := columns + [QueryColumn(fieldName, orgName, field.flags, dataType, categoryOf(dataType))];
      i := i + 1;
    }
  }

  /** The byte lengths the client library reports for the first `count`
      cells of a fetched row, copied one by one. */
  method RowLengths(row: seq<Cell>, count: nat) returns (lengths: seq<nat>)
    requires count <= |row|
    ensures |lengths| == count
    ensures forall i :: 0 <= i < count ==> lengths[i] == CellLength(row[i])
  {
    lengths := seq(count, _ => 0);
    var i := 0;
    while i < count
      invariant 0 <= i <= count == |lengths|
      invariant forall j :: 0 <= j < i ==> lengths[j] == CellLength(row[j])
    {
      lengths := lengths[i := CellLength(row[i])];
      i := i + 1;
    }
  }

  class MySQLQuery {
    /** The accumulated raw result buffers, in accumulation order. */
    var resultList: seq<RawResult>
    /** The read position of each buffer: the row its next fetch returns. */
    var positions: seq<nat>
    var recordCount: nat
    var columns: seq<QueryColumn>
    var columnLengths: seq<nat>
    var columnIndexes: map<string, nat>
    var curRecNo: nat
    var eof: bool
    /** The row last fetched; `None` is the null row pointer. */
    var curRow: Option<seq<Cell>>
    /** Index in `resultList` of the buffer the last in-range seek used. The
        source holds a shared pointer to that buffer instead, which keeps it
        (and the row held) alive after a replacing execution drops it from
        the list; this index is not adjusted then and no member reads it. */
    var currentResult: Option<nat>

    ghost predicate Valid()
      reads this
    {
      && |positions| == |resultList|
      && recordCount == TotalRows(resultList)
      && |columnLengths| == |columns|
      && forall k :: 0 <= k < |resultList| ==>
           && WellFormed(resultList[k])
           && positions[k] <= |resultList[k].rows|
    }

    /** The sequential-read invariant: while a row is held for an in-range
        record, the buffer holding that record is positioned just after it. */
    ghost predicate Coherent()
      reads this
      requires Valid()
    {
      curRow.Some? && curRecNo < recordCount ==>
        var loc := Locate(resultList, curRecNo);
        positions[loc.0] == loc.1 + 1
    }

    /** The row of its buffer that an in-range seek to `value` fetches: the
        local index of `value`, unless the read counts as sequential and the
        buffer is left where the previous fetch put it. */
    ghost function FetchPosition(value: nat): nat
      reads this
      requires Valid() && value < recordCount
    {
      var loc := Locate(resultList, value);
      if loc.1 == 0 || curRecNo + 1 != value || curRow.None? then loc.1 else positions[loc.0]
    }

    /** A seek to `value` fetches an existing row of its buffer, and that
        buffer reports a length for every remembered column (the client
        library's behaviour past the end of a buffer or of its length array
        is not modelled). */
    ghost predicate FetchInRange(value: nat)
      reads this
      requires Valid()
    {
      value < recordCount && value != curRecNo ==>
        var k := Locate(resultList, value).0;
        FetchPosition(value) < |resultList[k].rows| && |columnLengths| <= |resultList[k].fields|
    }

    /** The sequential fast path of a seek to `value` fetches the wanted row. */
    ghost predicate FastPathSafe(value: nat)
      reads this
      requires Valid()
    {
      value < recordCount ==> FetchPosition(value) == Locate(resultList, value).1
    }

    /** The row held is the current row and the remembered byte lengths are its. */
    ghost predicate Positioned()
      reads this
    {
      && curRow.Some?
      && |curRow.value| >= |columnLengths|
      && forall i :: 0 <= i < |columnLengths| ==> columnLengths[i] == CellLength(curRow.value[i])
    }

    /** The cursor state the base query class initialises is taken as given. */
    constructor (initialRecNo: nat, initialEof: bool)
      ensures Valid() && Coherent()
      ensures resultList == [] && recordCount == 0 && columns == [] && columnIndexes == map[]
      ensures curRow == None && curRecNo == initialRecNo && eof == initialEof
    {
      resultList := [];
      positions := [];
      recordCount := 0;
      columns := [];
      columnLengths := [];
      columnIndexes := map[];
      curRecNo := initialRecNo;
      eof := initialEof;
      curRow := None;
      currentResult := None;
    }

    /** Coherence is what makes every sequential seek safe. */
    lemma CoherentMakesFastPathSafe(value: nat)
      requires Valid() && Coherent()
      ensures FastPathSafe(value)
    {
      if curRow.Some? && curRecNo + 1 == value && value < recordCount
         && Locate(resultList, value).1 != 0 {
        var loc := Locate(resultList, value);
        LocateUnique(resultList, curRecNo, loc.0);
      }
    }

    function HasResult(): (r: bool)
      reads this
      requires Valid()
      ensures r <==> |resultList| > 0
      ensures !r ==> recordCount == 0
    {
      resultList != []
    }

    function ColumnCount(): nat
      reads this
    {
      |columns|
    }

    method Execute(addResult: bool, useRawResult: Option<nat>, lastResults: seq<RawResult>,
                   serverVersion: nat, typeMapping: nat -> DataTypeIndex,
                   categoryOf: DataTypeIndex -> nat)
      requires Valid()
      requires forall k :: 0 <= k < |lastResults| ==> WellFormed(lastResults[k])
      modifies this
      ensures Valid()
      // accumulate mode: append the buffer, add its rows, touch nothing else
      ensures addResult && old(resultList) != [] ==>
        var lr := LastResult(useRawResult, lastResults);
        && resultList == old(resultList) + (if lr.Some? then [lr.value] else [])
        && recordCount == old(recordCount) + (if lr.Some? then |lr.value.rows| else 0)
        && positions == old(positions) + (if lr.Some? then [0] else [])
        && columns == old(columns) && columnLengths == old(columnLengths)
        && columnIndexes == old(columnIndexes)
        && curRecNo == old(curRecNo) && eof == old(eof) && curRow == old(curRow)
        && currentResult == old(currentResult)
      ensures addResult && old(resultList) != [] && old(Coherent())
              && (old(curRow).None? || old(curRecNo) < old(recordCount))
              ==> Coherent()
      // replace mode (also an accumulate request on an empty list)
      ensures !(addResult && old(resultList) != []) ==>
        var lr := LastResult(useRawResult, lastResults);
        && resultList == (if lr.Some? then [lr.value] else [])
        && recordCount == (if lr.Some? then |lr.value.rows| else 0)
        && (lr.None? ==> columns == [] && columnLengths == [] && columnIndexes == map[]
                         && curRecNo == old(curRecNo) && eof == old(eof) && curRow == old(curRow))
      // replace mode with a buffer: the catalog is rebuilt from its fields
      ensures !(addResult && old(resultList) != []) && LastResult(useRawResult, lastResults).Some? ==>
        var fields := LastResult(useRawResult, lastResults).value.fields;
        && IsCatalogOf(columns, columnIndexes, fields, serverVersion, typeMapping, categoryOf)
        && |columnLengths| == |fields|
      // ... and the cursor is moved to the first record (a no-op seek when it is already at 0)
      ensures !(addResult && old(resultList) != []) && LastResult(useRawResult, lastResults).Some? ==>
        var rows := LastResult(useRawResult, lastResults).value.rows;
        && curRecNo == 0
        && (old(curRecNo) == 0 ==>
              curRow == old(curRow) && eof == old(eof) && positions == [0])
        && (old(curRecNo) != 0 && rows == [] ==> eof && curRow == old(curRow) && positions == [0])
        && (old(curRecNo) == 0 || rows == [] ==> forall i :: 0 <= i < |columnLengths| ==> columnLengths[i] == 0)
        && (old(curRecNo) != 0 && rows != [] ==>
              curRow == Some(rows[0]) && !eof && Positioned() && positions == [1])
      ensures !(addResult && old(resultList) != []) && (old(curRecNo) != 0 || old(curRow).None?) ==>
        Coherent()
    {
      var lastResult := LastResult(useRawResult, lastResults);
      var accumulate := addResult;
      if accumulate && |resultList| == 0 {
        accumulate := false;
      }
      if accumulate {
        AppendResult(lastResult);
      } else {
        ReplaceResult(lastResult, serverVersion, typeMapping, categoryOf);
      }
    }

    /** Accumulating execution: the buffer is appended and its rows counted;
        catalog and cursor are left alone. */
    method AppendResult(lastResult: Option<RawResult>)
      requires Valid()
      requires lastResult.Some? ==> WellFormed(lastResult.value)
      modifies this
      ensures Valid()
      ensures resultList == old(resultList) + (if lastResult.Some? then [lastResult.value] else [])
      ensures recordCount == old(recordCount) + (if lastResult.Some? then |lastResult.value.rows| else 0)
      ensures positions == old(positions) + (if lastResult.Some? then [0] else [])
      ensures columns == old(columns) && columnLengths == old(columnLengths)
      ensures columnIndexes == old(columnIndexes)
      ensures curRecNo == old(curRecNo) && eof == old(eof) && curRow == old(curRow)
      ensures currentResult == old(currentResult)
      ensures old(Coherent()) && (old(curRow).None? || old(curRecNo) < old(recordCount)) ==> Coherent()
    {
      if lastResult.Some? {
        ghost var before := resultList;
        TotalRowsAppend(resultList, lastResult.value);
        if Coherent() && curRow.Some? && curRecNo < recordCount {
          LocateAppend(resultList, lastResult.value, curRecNo);
        }
        resultList, positions, recordCount :=
          resultList + [lastResult.value], positions + [0], recordCount + |lastResult.value.rows|;
        assert forall k :: 0 <= k < |before| ==> resultList[k] == before[k];
      }
    }

    /** Replacing execution: the buffer list is reset to the new buffer, the
        catalog is rebuilt from its fields and the cursor moved to the first
        record. */
    method ReplaceResult(lastResult: Option<RawResult>, serverVersion: nat,
                         typeMapping: nat -> DataTypeIndex, categoryOf: DataTypeIndex -> nat)
      requires Valid()
      requires lastResult.Some? ==> WellFormed(lastResult.value)
      modifies this
      ensures Valid()
      ensures resultList == (if lastResult.Some? then [lastResult.value] else [])
      ensures recordCount == (if lastResult.Some? then |lastResult.value.rows| else 0)
      ensures lastResult.None? ==>
        && columns == [] && columnLengths == [] && columnIndexes == map[]
        && curRecNo == old(curRecNo) && eof == old(eof) && curRow == old(curRow)
      ensures lastResult.Some? ==>
        var fields := lastResult.value.fields;
        && IsCatalogOf(columns, columnIndexes, fields, serverVersion, typeMapping, categoryOf)
      ensures lastResult.Some? ==>
        var rows := lastResult.value.rows;
        && curRecNo == 0
        && (old(curRecNo) == 0 ==>
              curRow == old(curRow) && eof == old(eof) && positions == [0])
        && (old(curRecNo) != 0 && rows == [] ==> eof && curRow == old(curRow) && positions == [0])
        && (old(curRecNo) == 0 || rows == [] ==> forall i :: 0 <= i < |columnLengths| ==> columnLengths[i] == 0)
        && (old(curRecNo) != 0 && rows != [] ==>
              curRow == Some(rows[0]) && !eof && Positioned() && positions == [1])
      ensures old(curRecNo) != 0 || old(curRow).None? ==> Coherent()
    {
      resultList, positions, recordCount := [], [], 0;
      if lastResult.Some? {
        resultList, positions, recordCount := [lastResult.value], [0], |lastResult.value.rows|;
        assert [lastResult.value][1..] == [];
      }
      columns, columnLengths, columnIndexes := [], [], map[];
      if resultList != [] {
        RebuildCatalog(serverVersion, typeMapping, categoryOf);
        SeekFirst();
      }
    }

    /** The move to the first record that follows a replacing execution, on
        the single freshly taken buffer. */
    method SeekFirst()
      requires Valid() && |resultList| == 1 && positions == [0]
      requires |columnLengths| <= |resultList[0].fields|
      modifies this
      ensures Valid()
      ensures resultList == old(resultList) && recordCount == old(recordCount)
      ensures columns == old(columns) && columnIndexes == old(columnIndexes)
      ensures curRecNo == 0
      ensures old(curRecNo) == 0 ==>
        curRow == old(curRow) && eof == old(eof) && positions == [0] && columnLengths == old(columnLengths)
      ensures old(curRecNo) != 0 && resultList[0].rows == [] ==>
        eof && curRow == old(curRow) && positions == [0] && columnLengths == old(columnLengths)
      ensures old(curRecNo) != 0 && resultList[0].rows != [] ==>
        curRow == Some(resultList[0].rows[0]) && !eof && Positioned() && positions == [1]
      ensures old(curRecNo) != 0 || old(curRow).None? ==> Coherent()
    {
      assert resultList[1..] == [];
      if 0 < recordCount {
        assert Locate(resultList, 0) == (0, 0);
      }
      SeekRecNo(0);
    }

    /** The scan of a seek: walk the buffers with a running total of their
        rows and stop at the first one where the total passes `value`. */
    method FindResult(value: nat) returns (k: nat, numRows: nat)
      requires Valid() && value < recordCount
      ensures k < |resultList|
      ensures numRows == TotalRows(resultList[..k + 1])
      ensures TotalRows(resultList[..k]) <= value < numRows
      ensures Locate(resultList, value) == (k, value - TotalRows(resultList[..k]))
    {
      numRows := 0;
      k := 0;
      var found := false;
      assert resultList[..|resultList|] == resultList;
      while k < |resultList| && !found
        invariant 0 <= k <= |resultList|
        invariant found ==> k < |resultList|
        invariant !found ==> numRows == TotalRows(resultList[..k]) <= value
        invariant found ==>
          numRows == TotalRows(resultList[..k + 1]) && TotalRows(resultList[..k]) <= value < numRows
        decreases |resultList| - k, if found then 0 else 1
      {
        TotalRowsPrefixStep(resultList, k);
        numRows := numRows + |resultList[k].rows|;
        if numRows > value {
          found := true;
        } else {
          k := k + 1;
        }
      }
      assert found;
      TotalRowsPrefixStep(resultList, k);
      LocateUnique(resultList, value, k);
    }

    /** The catalog of the single buffer held: columns in field order, the
        name index, and one (zeroed) remembered length per column. */
    method RebuildCatalog(serverVersion: nat, typeMapping: nat -> DataTypeIndex,
                          categoryOf: DataTypeIndex -> nat)
      requires |resultList| == 1 && |positions| == 1 && recordCount == TotalRows(resultList)
      requires WellFormed(resultList[0]) && positions[0] <= |resultList[0].rows|
      modifies this`columns, this`columnLengths, this`columnIndexes
      ensures Valid()
      ensures
        var fields := resultList[0].fields;
        && IsCatalogOf(columns, columnIndexes, fields, serverVersion, typeMapping, categoryOf)
        && |columnLengths| == |fields|
        && forall i :: 0 <= i < |columnLengths| ==> columnLengths[i] == 0
    {
      var fields := resultList[0].fields;
      columnLengths := seq(|fields|, _ => 0);
      columns, columnIndexes := BuildCatalog(fields, serverVersion, typeMapping, categoryOf);
    }

    method SeekRecNo(value: nat)
      requires Valid() && FetchInRange(value)
      modifies this
      ensures Valid()
      ensures resultList == old(resultList) && recordCount == old(recordCount)
      ensures columns == old(columns) && columnIndexes == old(columnIndexes)
      ensures value == old(curRecNo) ==>
        curRecNo == old(curRecNo) && eof == old(eof) && curRow == old(curRow)
        && columnLengths == old(columnLengths) && positions == old(positions)
        && currentResult == old(currentResult)
      ensures value != old(curRecNo) && value >= recordCount ==>
        curRecNo == recordCount && eof && curRow == old(curRow)
        && columnLengths == old(columnLengths) && positions == old(positions)
        && currentResult == old(currentResult)
      ensures value != old(curRecNo) && value < recordCount ==>
        var loc := Locate(resultList, value);
        && loc.1 == value - TotalRows(resultList[..loc.0])
        && currentResult == Some(loc.0)
        && curRow == Some(resultList[loc.0].rows[old(FetchPosition(value))])
        && positions == old(positions)[loc.0 := old(FetchPosition(value)) + 1]
        && Positioned()
        && curRecNo == value && !eof
      ensures value != old(curRecNo) && value < recordCount && old(FastPathSafe(value)) ==>
        && curRow == Some(Flat(resultList)[value])
        && curRow == Some(resultList[Locate(resultList, value).0].rows[Locate(resultList, value).1])
        && Coherent()
      ensures value != old(curRecNo) && value >= recordCount ==> Coherent()
      ensures old(Coherent()) ==> Coherent()
    {
      if value == curRecNo {
        return;
      }
      if value >= recordCount {
        curRecNo := recordCount;
        eof := true;
        return;
      }
      if Coherent() {
        CoherentMakesFastPathSafe(value);
      }
      PositionAt(value);
    }

    /** An in-range seek: locate the buffer, reposition it unless the read is
        sequential, fetch the row and remember its cell lengths. */
    method PositionAt(value: nat)
      requires Valid() && value < recordCount
      requires FetchPosition(value) < |resultList[Locate(resultList, value).0].rows|
      requires |columnLengths| <= |resultList[Locate(resultList, value).0].fields|
      modifies this
      ensures Valid()
      ensures resultList == old(resultList) && recordCount == old(recordCount)
      ensures columns == old(columns) && columnIndexes == old(columnIndexes)
      ensures
        var loc := Locate(resultList, value);
        && loc.1 == value - TotalRows(resultList[..loc.0])
        && currentResult == Some(loc.0)
        && curRow == Some(resultList[loc.0].rows[old(FetchPosition(value))])
        && positions == old(positions)[loc.0 := old(FetchPosition(value)) + 1]
        && Positioned()
        && curRecNo == value && !eof
      ensures old(FastPathSafe(value)) ==>
        && curRow == Some(Flat(resultList)[value])
        && Coherent()
    {
      var k, position := FetchTarget(value);
      ghost var list, safe, loc := resultList, FastPathSafe(value), Locate(resultList, value);
      FetchRow(k, position, value);
      assert resultList == list && loc == Locate(resultList, value) && loc.0 == k;
      assert curRow == Some(resultList[k].rows[position]);
      assert safe ==> positions[k] == loc.1 + 1;
    }

    /** Where an in-range seek fetches: the buffer holding `value`, and in it
        the local index of `value` computed with unsigned arithmetic, unless
        the sequential fast path leaves the buffer where it is. */
    method FetchTarget(value: nat) returns (k: nat, position: nat)
      requires Valid() && value < recordCount
      ensures k < |resultList| && (k, value - TotalRows(resultList[..k])) == Locate(resultList, value)
      ensures position == FetchPosition(value)
      ensures FastPathSafe(value) ==> position < |resultList[k].rows|
                                      && resultList[k].rows[position] == Flat(resultList)[value]
    {
      var numRows;
      k, numRows := FindResult(value);
      var result := resultList[k];
      WantedLocalRecNo(resultList, k, numRows, value);
      var wantedLocalRecNo := ULongSub(|result.rows|, ULongSub(numRows, value));
      position := positions[k];
      if wantedLocalRecNo == 0 || curRecNo + 1 != value || curRow.None? {
        position := wantedLocalRecNo;
      }
      FlatAt(resultList, k, wantedLocalRecNo);
    }

    /** `mysql_fetch_row` on buffer `k` at `position` (after the seek, if any),
        the copy of the row's cell lengths into `columnLengths`, and the
        cursor's move to record `value`. */
    method FetchRow(k: nat, position: nat, value: nat)
      requires Valid() && k < |resultList| && position < |resultList[k].rows|
      requires |columnLengths| <= |resultList[k].fields|
      modifies this
      ensures Valid()
      ensures resultList == old(resultList) && recordCount == old(recordCount)
      ensures columns == old(columns) && columnIndexes == old(columnIndexes)
      ensures curRecNo == value && !eof
      ensures currentResult == Some(k)
      ensures positions == old(positions)[k := position + 1]
      ensures curRow == Some(resultList[k].rows[position])
      ensures Positioned()
    {
      var row := resultList[k].rows[position];
      var lengths := RowLengths(row, |columnLengths|);
      currentResult, positions, curRow, columnLengths := Some(k), positions[k := position + 1], Some(row), lengths;
      curRecNo, eof := value, false;
    }

    /** Bytes of column `index` of the row held, cut to its remembered
        length: the whole cell when the last seek fetched that row, nothing
        when a replacing execution zeroed the lengths but kept the row. Out
        of range it fails, or yields the empty value when errors are
        ignored. A NULL cell reads as the empty value. */
    function CurRowColumn(index: nat, ignoreErrors: bool): (r: Result<seq<byte>>)
      reads this
      requires Valid()
      requires index < |columns| ==>
        && curRow.Some? && index < |curRow.value|
        && columnLengths[index] <= CellLength(curRow.value[index])
      ensures index < |columns| ==>
        && r.Ok? && |r.value| == columnLengths[index]
        && (curRow.value[index].Bytes? ==> r.value == curRow.value[index].data[..columnLengths[index]])
        && (curRow.value[index].Null? ==> r.value == [])
      ensures index < |columns| && Positioned() && curRow.value[index].Bytes? ==>
        r.Ok? && r.value == curRow.value[index].data
      ensures index >= |columns| && ignoreErrors ==> r == Ok([])
      ensures index >= |columns| && !ignoreErrors ==>
        r == Err(ColumnNotAvailable(index, |columns|, Some(recordCount)))
    {
      if index < ColumnCount() then
        match curRow.value[index]
        case Null => Ok([])
        case Bytes(d) => Ok(d[..columnLengths[index]])
      else if !ignoreErrors then
        Err(ColumnNotAvailable(index, ColumnCount(), Some(recordCount)))
      else
        Ok([])
    }

    /** Whether column `index` of the current row is the NULL marker; out of
        range it always fails, there is no tolerant mode. */
    function IsNull(index: nat): (r: Result<bool>)
      reads this
      requires Valid()
      requires index < |columns| ==> curRow.Some? && index < |curRow.value|
      ensures index >= |columns| ==> r == Err(ColumnNotAvailable(index, |columns|, None))
      ensures index < |columns| ==> r == Ok(curRow.value[index] == Null)
    {
      match ThrowOnInvalidColumnIndex(index)
      case Fail(e) => Err(e)
      case Pass => Ok(curRow.value[index] == Null)
    }

    function ThrowOnInvalidColumnIndex(index: nat): (r: Outcome)
      reads this
      ensures r.Fail? <==> index >= |columns|
      ensures r.Fail? ==> r.error == ColumnNotAvailable(index, |columns|, None)
    {
      if index >= ColumnCount() then Fail(ColumnNotAvailable(index, ColumnCount(), None)) else Pass
    }
  }
}

/** Scenarios that run the cursor over concrete buffers. */
module MySQLScenarios {
  import opened Values
  import opened RowStream
  import opened MySQL

  function OneColumn(): seq<Field>
  {
    [Field("v", "v", 0, 3)]
  }

  /** Two accumulated buffers read as one stream. Both seeks are sequential:
      the one to record 1 takes the fast path, the one to record 2 is at the
      start of the second buffer and repositions it. */
  method SeekAcrossBuffers() returns (second: Option<seq<Cell>>, third: Option<seq<Cell>>)
    ensures second == Some([Bytes([2])]) && third == Some([Bytes([3])])
  {
    var a := RawResult(OneColumn(), [[Bytes([1])], [Bytes([2])]]);
    var b := RawResult(OneColumn(), [[Bytes([3])]]);
    var q := new MySQLQuery(7, false);
    q.Execute(false, None, [a], 50000, (c: nat) => Mapped(c), (t: DataTypeIndex) => 0);
    q.Execute(true, None, [b], 50000, (c: nat) => Mapped(c), (t: DataTypeIndex) => 0);
    assert q.resultList == [a, b] && q.recordCount == 3;
    assert q.resultList[..1] == [a];
    LocateUnique(q.resultList, 1, 0);
    q.SeekRecNo(1);
    second := q.curRow;
    LocateUnique(q.resultList, 2, 1);
    q.SeekRecNo(2);
    third := q.curRow;
  }

  function FirstBuffer(): RawResult
  {
    RawResult(OneColumn(), [[Bytes([1])], [Bytes([2])]])
  }

  function SecondBuffer(): RawResult
  {
    RawResult(OneColumn(), [[Bytes([5])], [Bytes([6])]])
  }

  /** A replacing execution while the cursor is at record 0: the move to the
      first record is a no-op, so the previous buffer's row stays held with
      zeroed lengths (reading a column yields the empty value), and the next
      seek counts as sequential and reads the new buffer's first row instead
      of record 1, its second row. */
  method SeekAfterReplaceAtFirstRecord() returns (stale: Result<seq<byte>>, read: Option<seq<Cell>>,
                                                  wanted: seq<Cell>)
    ensures stale == Ok([]) && read == Some([Bytes([5])]) && wanted == [Bytes([6])]
  {
    var q := new MySQLQuery(7, false);
    q.Execute(false, None, [FirstBuffer()], 50000, (c: nat) => Mapped(c), (t: DataTypeIndex) => 0);
    assert q.curRecNo == 0 && q.curRow == Some([Bytes([1])]);
    stale, read, wanted := ReplaceAtFirstRecord(q);
  }

  /** The second half: the cursor sits at record 0 holding the first
      buffer's first row. */
  method ReplaceAtFirstRecord(q: MySQLQuery)
    returns (stale: Result<seq<byte>>, read: Option<seq<Cell>>, wanted: seq<Cell>)
    requires q.Valid() && q.curRecNo == 0 && q.curRow == Some([Bytes([1])])
    modifies q
    ensures stale == Ok([]) && read == Some([Bytes([5])]) && wanted == [Bytes([6])]
  {
    q.Execute(false, None, [SecondBuffer()], 50000, (c: nat) => Mapped(c), (t: DataTypeIndex) => 0);
    assert q.resultList == [SecondBuffer()] && q.positions == [0] && |q.columnLengths| == 1;
    assert q.curRecNo == 0 && q.curRow == Some([Bytes([1])]) && q.columnLengths[0] == 0;
    stale := q.CurRowColumn(0, false);
    assert q.resultList[..0] == [];
    LocateUnique(q.resultList, 1, 0);
    q.SeekRecNo(1);
    read := q.curRow;
    FlatAt(q.resultList, 0, 1);
    wanted := Flat(q.resultList)[1];
  }

  /** A replacing execution at record 0 onto an empty result keeps the old
      row while the current record equals the (zero) record count; a buffer
      appended then is read by the fast path from its start, so record 1
      reads as the new buffer's first row. */
  method SeekAfterEmptyReplaceAndAccumulate() returns (read: Option<seq<Cell>>, wanted: seq<Cell>)
    ensures read == Some([Bytes([5])]) && wanted == [Bytes([6])]
  {
    var q := new MySQLQuery(7, false);
    q.Execute(false, None, [FirstBuffer()], 50000, (c: nat) => Mapped(c), (t: DataTypeIndex) => 0);
    assert q.curRecNo == 0 && q.curRow == Some([Bytes([1])]);
    q.Execute(false, None, [RawResult(OneColumn(), [])], 50000, (c: nat) => Mapped(c), (t: DataTypeIndex) => 0);
    assert q.curRecNo == 0 && q.recordCount == 0 && q.curRow.Some? && q.positions == [0];
    read, wanted := AccumulateAfterEmptyReplace(q);
  }

  /** The second half: no records, the current record 0, a row still held. */
  method AccumulateAfterEmptyReplace(q: MySQLQuery) returns (read: Option<seq<Cell>>, wanted: seq<Cell>)
    requires q.Valid() && q.resultList == [RawResult(OneColumn(), [])] && q.positions == [0]
    requires q.curRecNo == 0 && q.curRow.Some? && |q.columnLengths| <= 1
    modifies q
    ensures read == Some([Bytes([5])]) && wanted == [Bytes([6])]
  {
    q.Execute(true, None, [SecondBuffer()], 50000, (c: nat) => Mapped(c), (t: DataTypeIndex) => 0);
    assert q.resultList == [RawResult(OneColumn(), []), SecondBuffer()] && q.positions == [0, 0];
    assert q.resultList[..1] == [RawResult(OneColumn(), [])];
    LocateUnique(q.resultList, 1, 1);
    q.SeekRecNo(1);
    read := q.curRow;
    FlatAt(q.resultList, 1, 1);
    wanted := Flat(q.resultList)[1];
  }

  /** An end-of-file clamp, then a buffer appended: the next seek counts as
      sequential, skips repositioning and reads the new buffer's first row
      instead of record 3, its second row. */
  method SeekAfterEofAndAccumulate() returns (read: Option<seq<Cell>>, wanted: seq<Cell>)
    ensures read == Some([Bytes([5])]) && wanted == [Bytes([6])]
  {
    var q := new MySQLQuery(7, false);
    q.Execute(false, None, [FirstBuffer()], 50000, (c: nat) => Mapped(c), (t: DataTypeIndex) => 0);
    assert q.curRecNo == 0 && q.positions == [1];
    q.SeekRecNo(9);
    read, wanted := AccumulateAfterEof(q);
  }

  /** The second half: the cursor sits clamped at the end of the first
      buffer, still holding the row the replacing execution fetched, its
      first row. */
  method AccumulateAfterEof(q: MySQLQuery) returns (read: Option<seq<Cell>>, wanted: seq<Cell>)
    requires q.Valid() && q.resultList == [FirstBuffer()] && q.positions == [1]
    requires q.curRecNo == 2 && q.eof && q.curRow.Some? && |q.columnLengths| <= 1
    modifies q
    ensures read == Some([Bytes([5])]) && wanted == [Bytes([6])]
  {
    var c := SecondBuffer();
    q.Execute(true, None, [c], 50000, (c: nat) => Mapped(c), (t: DataTypeIndex) => 0);
    assert q.resultList == [FirstBuffer(), c] && q.positions == [1, 0];
    assert q.resultList[..1] == [FirstBuffer()];
    LocateUnique(q.resultList, 3, 1);
    q.SeekRecNo(3);
    read := q.curRow;
    FlatAt(q.resultList, 1, 1);
    wanted := Flat(q.resultList)[3];
  }
}
