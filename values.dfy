/** Value types shared by the result-set cursor and the paginated table model:
    bytes, cells as the database client library hands them out, and the
    unsigned 64-bit arithmetic the cursor uses for record numbers. */
module Values {

  newtype byte = x: int | 0 <= x < 256

  /** One cell of a raw row: the server's NULL marker, or a value with an
      explicit byte length (so embedded zero bytes are preserved). */
  datatype Cell = Null | Bytes(data: seq<byte>)

  datatype Option<T> = None | Some(value: T)

  /** Number of distinct values of an unsigned 64-bit integer (`ulonglong`). */
  const ULONGLONG_RANGE: nat := 0x1_0000_0000_0000_0000

  /** Byte length the client library reports for a cell: 0 for NULL. */
  function CellLength(c: Cell): nat
  {
    match c
    case Null => 0
    case Bytes(d) => |d|
  }

  /** Subtraction on unsigned 64-bit integers, wrapping around below zero. */
  function ULongSub(a: nat, b: nat): (r: nat)
    ensures r < ULONGLONG_RANGE
    ensures b <= a < ULONGLONG_RANGE ==> r == a - b
    ensures a < b && b - a <= ULONGLONG_RANGE ==> r == ULONGLONG_RANGE - (b - a)
  {
    (a - b) % ULONGLONG_RANGE
  }
}
