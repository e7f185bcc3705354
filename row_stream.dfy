/** The logical row stream of a result-set cursor: the concatenation, in
    accumulation order, of the rows of every raw result buffer it holds, and
    where a global record number lives inside that list of buffers. */
module RowStream {
  import opened Values

  /** Field metadata the driver reports for one result column. */
  datatype Field = Field(name: string, orgName: string, flags: bv32, typeCode: nat)

  /** One raw result buffer: its field list and its rows (`row_count` is `|rows|`). */
  datatype RawResult = RawResult(fields: seq<Field>, rows: seq<seq<Cell>>)

  /** A buffer as the client library produces it: every row has one cell per
      field, and the row count fits the unsigned 64-bit `row_count`. */
  ghost predicate WellFormed(r: RawResult)
  {
    && |r.rows| < ULONGLONG_RANGE
    && forall j :: 0 <= j < |r.rows| ==> |r.rows[j]| == |r.fields|
  }

  /** Sum of the row counts of the buffers. */
  function TotalRows(list: seq<RawResult>): nat
  {
    if list == [] then 0 else |list[0].rows| + TotalRows(list[1..])
  }

  /** The logical row stream. */
  function Flat(list: seq<RawResult>): (rows: seq<seq<Cell>>)
    ensures |rows| == TotalRows(list)
  {
    if list == [] then [] else list[0].rows + Flat(list[1..])
  }

  /** Appending a buffer adds its row count to the total. */
  lemma {:induction false} TotalRowsAppend(list: seq<RawResult>, b: RawResult)
    ensures TotalRows(list + [b]) == TotalRows(list) + |b.rows|
  {
    if list == [] {
      assert [b][1..] == [];
    } else {
      assert (list + [b])[1..] == list[1..] + [b];
      TotalRowsAppend(list[1..], b);
    }
  }

  /** Rows before buffer `k + 1` are the rows before buffer `k` plus buffer `k`'s. */
  lemma TotalRowsPrefixStep(list: seq<RawResult>, k: nat)
    requires k < |list|
    ensures TotalRows(list[..k + 1]) == TotalRows(list[..k]) + |list[k].rows|
  {
    assert list[..k + 1] == list[..k] + [list[k]];
    TotalRowsAppend(list[..k], list[k]);
  }

  /** Splitting the first buffer off a prefix. */
  lemma TotalRowsPrefixHead(list: seq<RawResult>, k: nat)
    requires 0 < k <= |list|
    ensures TotalRows(list[..k]) == |list[0].rows| + TotalRows(list[1..][..k - 1])
  {
    assert list[..k][1..] == list[1..][..k - 1];
  }

  /** Prefix totals never exceed the whole total. */
  lemma {:induction false} TotalRowsPrefixBound(list: seq<RawResult>, k: nat)
    requires k <= |list|
    ensures TotalRows(list[..k]) <= TotalRows(list)
  {
    if k > 0 {
      TotalRowsPrefixHead(list, k);
      TotalRowsPrefixBound(list[1..], k - 1);
      assert list[..|list|] == list;
    }
  }

  /** Row `j` of buffer `k` sits in the logical stream right after the rows of
      the buffers before `k`. */
  lemma {:induction false} FlatAt(list: seq<RawResult>, k: nat, j: nat)
    requires k < |list| && j < |list[k].rows|
    ensures TotalRows(list[..k]) + j < |Flat(list)|
    ensures Flat(list)[TotalRows(list[..k]) + j] == list[k].rows[j]
  {
    if k == 0 {
      assert list[..0] == [];
    } else {
      TotalRowsPrefixHead(list, k);
      FlatAt(list[1..], k - 1, j);
    }
  }

  /** Where global record `v` lives: the buffer holding it and its index inside
      that buffer. */
  function Locate(list: seq<RawResult>, v: nat): (loc: (nat, nat))
    requires v < TotalRows(list)
    ensures loc.0 < |list| && loc.1 < |list[loc.0].rows|
    ensures TotalRows(list[..loc.0]) + loc.1 == v
  {
    if v < |list[0].rows| then
      assert list[..0] == [];
      (0, v)
    else
      var loc := Locate(list[1..], v - |list[0].rows|);
      TotalRowsPrefixHead(list, loc.0 + 1);
      (loc.0 + 1, loc.1)
  }

  /** The buffer whose row range contains `v` determines the location: the
      first buffer at which the running total exceeds `v` is Locate's. */
  lemma {:induction false} LocateUnique(list: seq<RawResult>, v: nat, k: nat)
    requires k < |list|
    requires TotalRows(list[..k]) <= v < TotalRows(list[..k]) + |list[k].rows|
    ensures v < TotalRows(list)
    ensures Locate(list, v) == (k, v - TotalRows(list[..k]))
  {
    TotalRowsPrefixStep(list, k);
    TotalRowsPrefixBound(list, k + 1);
    if k == 0 {
      assert list[..0] == [];
    } else {
      TotalRowsPrefixHead(list, k);
      TotalRowsPrefixHead(list, k + 1);
      LocateUnique(list[1..], v - |list[0].rows|, k - 1);
    }
  }

  /** Appending a buffer does not move any record that was already there. */
  lemma LocateAppend(list: seq<RawResult>, b: RawResult, v: nat)
    requires v < TotalRows(list)
    ensures v < TotalRows(list + [b])
    ensures Locate(list + [b], v) == Locate(list, v)
  {
    TotalRowsAppend(list, b);
    var loc := Locate(list, v);
    assert (list + [b])[..loc.0] == list[..loc.0];
    LocateUnique(list + [b], v, loc.0);
  }

  /** The cursor converts the running total into a buffer-local index with
      unsigned subtraction, `row_count - (numRows - value)`. Once the running
      total has just passed `value`, neither subtraction wraps, and the result
      is the local index of `value` in that buffer. */
  lemma WantedLocalRecNo(list: seq<RawResult>, k: nat, numRows: nat, value: nat)
    requires k < |list| && |list[k].rows| < ULONGLONG_RANGE
    requires numRows == TotalRows(list[..k + 1])
    requires TotalRows(list[..k]) <= value < numRows
    ensures numRows - value <= |list[k].rows|
    ensures ULongSub(|list[k].rows|, ULongSub(numRows, value)) == value - TotalRows(list[..k])
    ensures value - TotalRows(list[..k]) < |list[k].rows|
  {
    TotalRowsPrefixStep(list, k);
  }
}
