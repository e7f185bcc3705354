/** The paginated table model: it shows the rows of one table or view,
    loaded through a query-data fetcher in a window that grows step by step
    up to a hard maximum, and tells its observers which rows and columns
    appeared or went away. */
module TableModel {
  import opened Values

  /** Rows added to the window by one step, and the absolute window maximum. */
  const DATA_ROWS_PER_STEP: nat := 1000
  const DATA_MAX_ROWS: nat := 100000

  datatype EntityType = Table | View | OtherEntity

  /** The table or view being shown, with what the model asks of it: its
      database name, its storage engine and the engine's row estimate. */
  datatype Entity = Entity(
    databaseName: string,
    name: string,
    kind: EntityType,
    engine: string,
    estimatedRowsCount: nat)

  /** What the model asks the fetcher for. */
  datatype QueryCriteria = QueryCriteria(entity: Entity, limit: nat, offset: nat)

  /** The materialized data set: column names and the rows loaded so far. */
  datatype QueryData = QueryData(columnNames: seq<string>, rows: seq<seq<Cell>>)

  /** Change notifications, each with the inclusive range it covers. */
  datatype Notification =
    | ColumnsInserted(first: int, last: int)
    | RowsInserted(first: int, last: int)
    | RowsRemoved(first: int, last: int)
    | ColumnsRemoved(first: int, last: int)

  /** A piece of the row-count summary; number formatting and translation
      are left to the presentation layer. */
  datatype StatsPart = Text(text: string) | Number(n: nat) | Translated(phrase: Phrase)

  /** The phrases of the summary that go through translation. */
  datatype Phrase = RowsTotal | Approximately | LimitedTo

  /** The limit handed to the fetcher, `wanted - offset` on unsigned 64-bit
      integers: it wraps around when the window is smaller than the offset. */
  function LoadLimit(wanted: nat, offset: nat): (limit: nat)
    ensures limit < ULONGLONG_RANGE
    ensures offset <= wanted < ULONGLONG_RANGE ==> limit == wanted - offset
    ensures wanted < offset && offset - wanted <= ULONGLONG_RANGE ==>
      limit == ULONGLONG_RANGE - (offset - wanted)
  {
    ULongSub(wanted, offset)
  }

  /** The window after one growth step: reset to zero first if asked, grow by
      one step, never beyond the maximum. */
  function NextWindow(wanted: nat, reset: bool): (r: nat)
    ensures r <= DATA_MAX_ROWS
    ensures reset ==> r == DATA_ROWS_PER_STEP
    ensures !reset && wanted <= DATA_MAX_ROWS ==> wanted <= r
    ensures !reset && wanted + DATA_ROWS_PER_STEP <= DATA_MAX_ROWS ==> r == wanted + DATA_ROWS_PER_STEP
    ensures !reset && wanted + DATA_ROWS_PER_STEP > DATA_MAX_ROWS ==> r == DATA_MAX_ROWS
  {
    var w := (if reset then 0 else wanted) + DATA_ROWS_PER_STEP;
    if w > DATA_MAX_ROWS then DATA_MAX_ROWS else w
  }

  /** The window after `steps` growth steps without reset. */
  function Grown(wanted: nat, steps: nat): nat
  {
    if steps == 0 then wanted else NextWindow(Grown(wanted, steps - 1), false)
  }

  /** Growing a window within the maximum by `k` steps adds `k` steps until
      the maximum is reached, where the window then stays; it never shrinks. */
  lemma {:induction false} GrowthReachesMaximum(wanted: nat, k: nat)
    requires wanted <= DATA_MAX_ROWS
    ensures wanted <= Grown(wanted, k) <= DATA_MAX_ROWS
    ensures wanted + k * DATA_ROWS_PER_STEP <= DATA_MAX_ROWS ==>
      Grown(wanted, k) == wanted + k * DATA_ROWS_PER_STEP
    ensures wanted + k * DATA_ROWS_PER_STEP >= DATA_MAX_ROWS ==> Grown(wanted, k) == DATA_MAX_ROWS
  {
    if k > 0 {
      GrowthReachesMaximum(wanted, k - 1);
    }
  }

  /** Notifications for the columns and rows a load added. */
  function InsertNotifications(prevColumns: nat, columns: nat, prevRows: nat, rows: nat): seq<Notification>
  {
    (if columns > prevColumns then [ColumnsInserted(prevColumns, columns - 1)] else [])
    + (if rows > prevRows then [RowsInserted(prevRows, rows - 1)] else [])
  }

  /** Notifications announcing that all rows, then all columns, go away. */
  function RemoveNotifications(rows: nat, columns: nat): seq<Notification>
  {
    (if rows > 0 then [RowsRemoved(0, rows - 1)] else [])
    + (if columns > 0 then [ColumnsRemoved(0, columns - 1)] else [])
  }

  /** What the model assumes of the fetcher's `run`: it leaves no more than
      `offset + limit` rows, and a load from a non-zero offset keeps the rows
      already there and only adds after them. */
  ghost predicate FetcherContract(criteria: QueryCriteria, before: QueryData, after: QueryData)
  {
    && |after.rows| <= criteria.offset + criteria.limit
    && (criteria.offset > 0 ==>
          |before.rows| <= |after.rows| && after.rows[..|before.rows|] == before.rows)
  }

  class DataTableModel {
    var entityChangedProcessed: bool
    var dbEntity: Option<Entity>
    var queryData: QueryData
    var wantedRowsCount: nat
    /** Every notification emitted so far, oldest first. */
    var notifications: seq<Notification>

    ghost predicate Valid()
      reads this
    {
      wantedRowsCount <= DATA_MAX_ROWS
    }

    constructor ()
      ensures Valid()
      ensures dbEntity == None && !entityChangedProcessed
      ensures wantedRowsCount == DATA_MAX_ROWS
      ensures queryData == QueryData([], []) && notifications == []
    {
      entityChangedProcessed := false;
      dbEntity := None;
      queryData := QueryData([], []);
      wantedRowsCount := DATA_MAX_ROWS;
      notifications := [];
    }

    function ColumnCount(): nat
      reads this
    {
      |queryData.columnNames|
    }

    function RowCount(): nat
      reads this
    {
      |queryData.rows|
    }

    /** Whether `loadData(force)` would ask the fetcher for rows. */
    predicate LoadRuns(force: bool)
      reads this
    {
      dbEntity.Some? && (force || !entityChangedProcessed)
    }

    /** The criteria a running load hands to the fetcher: from the first row
        after the entity changed, otherwise after the rows already loaded. */
    function NextCriteria(): (c: QueryCriteria)
      reads this
      requires dbEntity.Some?
    {
      var offset := if entityChangedProcessed then RowCount() else 0;
      QueryCriteria(dbEntity.value, LoadLimit(wantedRowsCount, offset), offset)
    }

    method RemoveData()
      modifies this`notifications
      ensures notifications == old(notifications) + RemoveNotifications(RowCount(), ColumnCount())
    {
      if RowCount() > 0 {
        notifications := notifications + [RowsRemoved(0, RowCount() - 1)];
      }
      if ColumnCount() > 0 {
        notifications := notifications + [ColumnsRemoved(0, ColumnCount() - 1)];
      }
    }

    /** Loads (more of) the entity's rows. `fetched` is the data set as the
        fetcher's `run` leaves it, or `None` when `run` fails: the error then
        propagates before the processed flag is set or anything is
        announced, so the next unforced load tries again. The criteria
        handed to the fetcher are returned. */
    method LoadData(force: bool, fetched: Option<QueryData>) returns (request: Option<QueryCriteria>)
      requires Valid()
      requires LoadRuns(force) && fetched.Some? ==> FetcherContract(NextCriteria(), queryData, fetched.value)
      modifies this
      ensures Valid()
      ensures dbEntity == old(dbEntity) && wantedRowsCount == old(wantedRowsCount)
      ensures !old(LoadRuns(force)) ==>
        && request == None && queryData == old(queryData)
        && entityChangedProcessed == old(entityChangedProcessed)
        && notifications == old(notifications)
      ensures old(LoadRuns(force)) ==>
        var prevColumns := if old(entityChangedProcessed) then old(ColumnCount()) else 0;
        var prevRows := if old(entityChangedProcessed) then old(RowCount()) else 0;
        && request.Some?
        && request.value.entity == dbEntity.value
        && request.value.offset == prevRows
        && request.value.limit == LoadLimit(wantedRowsCount, prevRows)
      ensures old(LoadRuns(force)) && fetched.Some? ==>
        var prevColumns := if old(entityChangedProcessed) then old(ColumnCount()) else 0;
        var prevRows := if old(entityChangedProcessed) then old(RowCount()) else 0;
        && queryData == fetched.value
        && entityChangedProcessed
        && notifications == old(notifications)
             + InsertNotifications(prevColumns, ColumnCount(), prevRows, RowCount())
      ensures old(LoadRuns(force)) && fetched.None? ==>
        && queryData == old(queryData)
        && entityChangedProcessed == old(entityChangedProcessed)
        && notifications == old(notifications)
      ensures dbEntity.Some? && fetched.Some? ==> entityChangedProcessed
      // a load within the window keeps the rows within it, and the window is
      // full exactly when the fetcher delivered every row it was asked for
      ensures old(LoadRuns(force)) && fetched.Some? && request.value.offset <= wantedRowsCount ==>
        && request.value.offset <= RowCount() <= wantedRowsCount
        && (IsLimited() <==> RowCount() - request.value.offset == request.value.limit)
    {
      if dbEntity.None? {
        return None;
      }
      if !force && entityChangedProcessed {
        return None;
      }
      var offset := 0;
      var prevColumns := 0;
      var prevRows := 0;
      if entityChangedProcessed {
        offset := RowCount();
        prevColumns := ColumnCount();
        prevRows := RowCount();
      }
      var criteria := QueryCriteria(dbEntity.value, LoadLimit(wantedRowsCount, offset), offset);
      request := Some(criteria);
      if fetched.None? {
        return;
      }
      queryData := fetched.value;
      entityChangedProcessed := true;
      if ColumnCount() > prevColumns {
        notifications := notifications + [ColumnsInserted(prevColumns, ColumnCount() - 1)];
      }
      if RowCount() > prevRows {
        notifications := notifications + [RowsInserted(prevRows, RowCount() - 1)];
      }
    }

    /** Shows another entity; loads it at once when asked. The rows of the
        previous entity are announced as removed but stay in `queryData`
        until the next load replaces them. */
    method SetEntity(entity: Option<Entity>, loadData: bool, fetched: Option<QueryData>)
      returns (request: Option<QueryCriteria>)
      requires Valid()
      requires loadData && entity.Some? && fetched.Some? ==>
        FetcherContract(QueryCriteria(entity.value, wantedRowsCount, 0), queryData, fetched.value)
      modifies this
      ensures Valid()
      ensures dbEntity == entity && wantedRowsCount == old(wantedRowsCount)
      ensures entityChangedProcessed == (loadData && entity.Some? && fetched.Some?)
      ensures loadData && entity.Some? ==> request == Some(QueryCriteria(entity.value, wantedRowsCount, 0))
      ensures loadData && entity.Some? && fetched.Some? ==>
        && queryData == fetched.value
        && notifications == old(notifications)
             + RemoveNotifications(old(RowCount()), old(ColumnCount()))
             + InsertNotifications(0, ColumnCount(), 0, RowCount())
      // a failing fetch leaves the old data and only the removal announced
      ensures loadData && entity.Some? && fetched.None? ==>
        && queryData == old(queryData)
        && notifications == old(notifications) + RemoveNotifications(old(RowCount()), old(ColumnCount()))
      ensures !(loadData && entity.Some?) ==>
        && request == None
        && queryData == old(queryData)
        && notifications == old(notifications) + RemoveNotifications(old(RowCount()), old(ColumnCount()))
    {
      RemoveData();
      dbEntity := entity;
      entityChangedProcessed := false;
      request := None;
      if loadData {
        request := LoadData(true, fetched);
      }
    }

    /** Announces the removal of everything shown, then loads with `force`.
        The processed flag is not cleared, so past the first load this asks
        for the rows after those already loaded. */
    method Refresh(fetched: Option<QueryData>) returns (request: Option<QueryCriteria>)
      requires Valid()
      requires dbEntity.Some? && fetched.Some? ==> FetcherContract(NextCriteria(), queryData, fetched.value)
      modifies this
      ensures Valid()
      ensures dbEntity == old(dbEntity) && wantedRowsCount == old(wantedRowsCount)
      ensures dbEntity.None? ==>
        request == None && queryData == old(queryData)
        && notifications == old(notifications) + RemoveNotifications(old(RowCount()), old(ColumnCount()))
      ensures dbEntity.Some? ==> request == Some(old(NextCriteria()))
      ensures dbEntity.Some? && fetched.Some? ==>
        var prevColumns := if old(entityChangedProcessed) then old(ColumnCount()) else 0;
        var prevRows := if old(entityChangedProcessed) then old(RowCount()) else 0;
        && queryData == fetched.value && entityChangedProcessed
        && notifications == old(notifications)
             + RemoveNotifications(old(RowCount()), old(ColumnCount()))
             + InsertNotifications(prevColumns, ColumnCount(), prevRows, RowCount())
      ensures dbEntity.Some? && fetched.None? ==>
        && queryData == old(queryData) && entityChangedProcessed == old(entityChangedProcessed)
        && notifications == old(notifications) + RemoveNotifications(old(RowCount()), old(ColumnCount()))
    {
      RemoveData();
      request := LoadData(true, fetched);
    }

    method SetNoRowsCountLimit()
      modifies this`wantedRowsCount
      ensures Valid() && wantedRowsCount == DATA_MAX_ROWS
    {
      wantedRowsCount := DATA_MAX_ROWS;
    }

    method IncRowsCountForOneStep(reset: bool)
      modifies this`wantedRowsCount
      ensures Valid()
      ensures wantedRowsCount == NextWindow(old(wantedRowsCount), reset)
    {
      if reset {
        wantedRowsCount := 0;
      }
      wantedRowsCount := wantedRowsCount + DATA_ROWS_PER_STEP;
      if wantedRowsCount > DATA_MAX_ROWS {
        wantedRowsCount := DATA_MAX_ROWS;
      }
    }

    /** The window is full: more rows may exist beyond those loaded. */
    predicate IsLimited()
      reads this
    {
      wantedRowsCount <= RowCount()
    }

    /** Either the window is not full, or it cannot grow any more. */
    predicate AllDataLoaded()
      reads this
    {
      !IsLimited() || wantedRowsCount == DATA_MAX_ROWS
    }

    /** A window grown by enough steps from any start within the maximum
        reaches the maximum, so all data counts as loaded whatever was
        fetched. */
    lemma AllDataLoadedAfterGrowth(start: nat, k: nat)
      requires start <= DATA_MAX_ROWS && start + k * DATA_ROWS_PER_STEP >= DATA_MAX_ROWS
      requires wantedRowsCount == Grown(start, k)
      ensures AllDataLoaded()
    {
      GrowthReachesMaximum(start, k);
    }

    /** The row-count summary shown for the entity. */
    function RowCountStats(): (r: seq<StatsPart>)
      reads this
      ensures dbEntity.None? <==> r == []
      ensures dbEntity.Some? ==>
        var e := dbEntity.value;
        && r[0] == Text(if |e.databaseName| > 0 then e.databaseName + "." + e.name else e.name)
        && (e.kind != Table ==> |r| == 1)
        && (e.kind == Table ==>
              && |r| >= 4
              && r[2] == Number(if entityChangedProcessed && !IsLimited() then RowCount()
                                else e.estimatedRowsCount)
              && (Translated(Approximately) in r <==> e.engine == "InnoDB")
              && (Translated(LimitedTo) in r <==> IsLimited())
              && (IsLimited() ==> r[|r| - 1] == Number(RowCount())))
    {
      if dbEntity.None? then []
      else
        var e := dbEntity.value;
        var name := (if |e.databaseName| > 0 then e.databaseName + "." else "") + e.name;
        if e.kind != Table then [Text(name)]
        else
          var rowsCount := if entityChangedProcessed && !IsLimited() then RowCount()
                           else e.estimatedRowsCount;
          var total := [Text(name), Text(": "), Number(rowsCount), Text(" "), Translated(RowsTotal)];
          var engine := if e.engine == "InnoDB"
                        then [Text(" ("), Translated(Approximately), Text(")")] else [];
          var limited := if IsLimited()
                         then [Text(", "), Translated(LimitedTo), Text(" "), Number(RowCount())] else [];
          assert Translated(Approximately) !in total + limited;
          assert Translated(LimitedTo) !in total + engine;
          total + engine + limited
    }
  }
}

/** A table of 2500 rows browsed in windows of 1000 rows. */
module TableModelScenarios {
  import opened Values
  import opened TableModel

  method PagingScenario() returns (requests: seq<Option<QueryCriteria>>, limited: seq<bool>,
                                   events: seq<Notification>)
    ensures |requests| == 4 && |limited| == 3
    ensures requests[0].Some? && requests[0].value.offset == 0 && requests[0].value.limit == 1000
    ensures requests[1].Some? && requests[1].value.offset == 1000 && requests[1].value.limit == 1000
    ensures requests[2].Some? && requests[2].value.offset == 2000 && requests[2].value.limit == 1000
    ensures requests[3] == None
    ensures limited == [true, true, false]
    ensures events == [ColumnsInserted(0, 0), RowsInserted(0, 999),
                       RowsInserted(1000, 1999), RowsInserted(2000, 2499)]
  {
    var rows: seq<seq<Cell>> := seq(2500, i => [Bytes([])]);
    var fetched1 := QueryData(["id"], rows[..1000]);
    var fetched2 := QueryData(["id"], rows[..2000]);
    var fetched3 := QueryData(["id"], rows);
    var table := Entity("shop", "orders", Table, "InnoDB", 2400);
    var m := new DataTableModel();
    m.IncRowsCountForOneStep(true);
    var r := m.SetEntity(Some(table), true, Some(fetched1));
    requests := [r];
    limited := [m.IsLimited()];
    m.IncRowsCountForOneStep(false);
    assert fetched2.rows[..1000] == fetched1.rows;
    r := m.LoadData(true, Some(fetched2));
    requests := requests + [r];
    limited := limited + [m.IsLimited()];
    m.IncRowsCountForOneStep(false);
    assert fetched3.rows[..2000] == fetched2.rows;
    r := m.LoadData(true, Some(fetched3));
    requests := requests + [r];
    limited := limited + [m.IsLimited()];
    ghost var shown := m.notifications;
    r := m.LoadData(false, Some(fetched1));
    assert m.notifications == shown;
    requests := requests + [r];
    events := m.notifications;
  }

  function SmallTable(): Entity
  {
    Entity("shop", "customers", Table, "MyISAM", 3)
  }

  /** A first load whose fetch fails leaves the entity unprocessed, so an
      unforced load afterwards asks again from the start. */
  method FailedLoadIsRetried() returns (first: Option<QueryCriteria>, retry: Option<QueryCriteria>,
                                        events: seq<Notification>)
    ensures first == Some(QueryCriteria(SmallTable(), DATA_MAX_ROWS, 0))
    ensures retry == first
    ensures events == [ColumnsInserted(0, 0), RowsInserted(0, 2)]
  {
    var m := new DataTableModel();
    first := m.SetEntity(Some(SmallTable()), true, None);
    retry := m.LoadData(false, Some(QueryData(["id"], [[Null], [Null], [Null]])));
    events := m.notifications;
  }
}
