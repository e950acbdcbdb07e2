/**
 * The spreadsheet the roster lives in, as the reminder logic sees it through
 * its client: row 1 is the header, every later row is one record, and cells
 * are addressed by 1-based row and column numbers. Authentication and the
 * network are not part of this model.
 */
module Sheet {

  /** Index of the first occurrence of `x` (Python's list.index). */
  function IndexOf(xs: seq<string>, x: string): (i: nat)
    requires x in xs
    ensures i < |xs| && xs[i] == x
    ensures forall j :: 0 <= j < i ==> xs[j] != x
  {
    if xs[0] == x then 0 else 1 + IndexOf(xs[1..], x)
  }

  /** Index of the last occurrence of `x`: the column a dict built with zip(header, row) keeps for a repeated key. */
  function LastIndexOf(xs: seq<string>, x: string): (i: nat)
    requires x in xs
    ensures i < |xs| && xs[i] == x
  {
    if xs[|xs| - 1] == x then |xs| - 1
    else
      assert x in xs[..|xs| - 1] by {
        var k :| 0 <= k < |xs| && xs[k] == x;
        assert xs[..|xs| - 1][k] == x;
      }
      LastIndexOf(xs[..|xs| - 1], x)
  }

  /** No later element equals `x`. */
  lemma {:induction false} LastIndexOfIsLast(xs: seq<string>, x: string)
    requires x in xs
    ensures forall j | LastIndexOf(xs, x) < j < |xs| :: xs[j] != x
    decreases |xs|
  {
    if xs[|xs| - 1] != x {
      var k :| 0 <= k < |xs| && xs[k] == x;
      assert xs[..|xs| - 1][k] == x;
      LastIndexOfIsLast(xs[..|xs| - 1], x);
    }
  }

  /**
   * `record.get(key, "")` for the record get_all_records builds from a data
   * row: the value under the last header cell equal to `key`, or "" when no
   * header cell is.
   */
  function RecordField(header: seq<string>, row: seq<string>, key: string): (v: string)
    requires |row| == |header|
    ensures key !in header ==> v == ""
    ensures key in header ==> exists c :: 0 <= c < |header| && header[c] == key && v == row[c]
  {
    if key in header then row[LastIndexOf(header, key)] else ""
  }

  /** Every data row has one cell per header cell. */
  predicate Rectangular(header: seq<string>, rows: seq<seq<string>>) {
    forall r | r in rows :: |r| == |header|
  }

  class Worksheet {
    /** Row 1. */
    var header: seq<string>
    /** Rows 2, 3, …: rows[k] is sheet row k + 2. */
    var rows: seq<seq<string>>

    ghost predicate Valid()
      reads this
    {
      Rectangular(header, rows)
    }

    constructor (header: seq<string>, rows: seq<seq<string>>)
      requires Rectangular(header, rows)
      ensures Valid() && this.header == header && this.rows == rows
    {
      this.header := header;
      this.rows := rows;
    }

    /** The cell (r, c) lies in the header or in one of the data rows. */
    predicate InSheet(r: int, c: int)
      reads this
    {
      1 <= r <= |rows| + 1 && 1 <= c <= |header|
    }

    /** row_values(1): the header row. */
    function RowValues(): seq<string>
      reads this
    {
      header
    }

    /** cell(r, c).value: an empty cell reads as "". */
    function Cell(r: int, c: int): string
      reads this
      requires Valid() && InSheet(r, c)
    {
      if r == 1 then header[c - 1] else rows[r - 2][c - 1]
    }

    /** update_cell(r, c, v): overwrites one cell and nothing else. */
    method UpdateCell(r: int, c: int, v: string)
      requires Valid() && InSheet(r, c)
      modifies this
      ensures Valid() && InSheet(r, c)
      ensures Cell(r, c) == v
      ensures forall r', c' | old(InSheet(r', c')) && (r', c') != (r, c) :: InSheet(r', c') && Cell(r', c') == old(Cell(r', c'))
      ensures r == 1 ==> header == old(header)[c - 1 := v] && rows == old(rows)
      ensures r >= 2 ==> header == old(header) && rows == old(rows)[r - 2 := old(rows)[r - 2][c - 1 := v]]
    {
      if r == 1 {
        header := header[c - 1 := v];
      } else {
        rows := rows[r - 2 := rows[r - 2][c - 1 := v]];
      }
    }
  }
}
