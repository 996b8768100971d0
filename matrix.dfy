/** A rows x columns matrix over one flat, row-major buffer. */
module Matrices {

  /** The flat position of cell (r, c): r whole rows of `columns` cells, then c. */
  function Offset(r: nat, c: nat, columns: nat): nat {
    if r == 0 then c else columns + Offset(r - 1, c, columns)
  }

  lemma {:induction false} OffsetValue(r: nat, c: nat, columns: nat)
    ensures Offset(r, c, columns) == r * columns + c
  {
    if r > 0 {
      OffsetValue(r - 1, c, columns);
    }
  }

  lemma {:induction false} OffsetInRange(r: nat, c: nat, rows: nat, columns: nat)
    requires r < rows && c < columns
    ensures Offset(r, c, columns) < rows * columns
  {
    OffsetValue(r, c, columns);
    calc {
      r * columns + c;
    <
      r * columns + columns;
    ==
      (r + 1) * columns;
    <=  { MulMono(r + 1, rows, columns); }
      rows * columns;
    }
  }

  lemma {:induction false} MulMono(a: nat, b: nat, k: nat)
    requires a <= b
    ensures a * k <= b * k
  {
  }

  /** Distinct in-range cells occupy distinct flat positions. */
  lemma {:induction false} OffsetInjective(r1: nat, c1: nat, r2: nat, c2: nat, columns: nat)
    requires c1 < columns && c2 < columns
    ensures Offset(r1, c1, columns) == Offset(r2, c2, columns) <==> r1 == r2 && c1 == c2
  {
    OffsetValue(r1, c1, columns);
    OffsetValue(r2, c2, columns);
    if r1 < r2 {
      RowBefore(r1, c1, r2, c2, columns);
    } else if r2 < r1 {
      RowBefore(r2, c2, r1, c1, columns);
    }
  }

  /** Every cell of an earlier row lies before every cell of a later row. */
  lemma {:induction false} RowBefore(r1: nat, c1: nat, r2: nat, c2: nat, columns: nat)
    requires r1 < r2 && c1 < columns
    ensures r1 * columns + c1 < r2 * columns + c2
  {
    MulMono(r1 + 1, r2, columns);
    assert (r1 + 1) * columns == r1 * columns + columns;
  }

  class Matrix<T> {
    var rows: nat
    var columns: nat
    var data: array<T>
    /** The value-initialised element of T. */
    const zero: T
    /** The matrix as a list of rows. */
    ghost var cells: seq<seq<T>>

    ghost predicate Valid()
      reads this, data
    {
      data.Length == rows * columns && |cells| == rows &&
      (forall r | 0 <= r < rows :: |cells[r]| == columns) &&
      forall r, c | 0 <= r < rows && 0 <= c < columns ::
        Offset(r, c, columns) < data.Length && data[Offset(r, c, columns)] == cells[r][c]
    }

    /** A rows x columns matrix whose cells all hold the value-initialised element. */
    constructor(rows: nat, columns: nat, zero: T)
      ensures Valid() && this.rows == rows && this.columns == columns && this.zero == zero && fresh(data)
      ensures cells == seq(rows, _ => seq(columns, _ => zero))
    {
      this.rows := rows;
      this.columns := columns;
      this.zero := zero;
      data := new T[rows * columns](_ => zero);
      cells := seq(rows, _ => seq(columns, _ => zero));
      new;
      forall r, c | 0 <= r < rows && 0 <= c < columns ensures Offset(r, c, columns) < data.Length {
        OffsetInRange(r, c, rows, columns);
      }
    }

    /** The default matrix is 0 x 0. */
    constructor Empty(zero: T)
      ensures Valid() && rows == 0 && columns == 0 && cells == [] && this.zero == zero && fresh(data)
    {
      rows := 0;
      columns := 0;
      this.zero := zero;
      data := new T[0];
      cells := [];
    }

    function Get(r: nat, c: nat): (x: T)
      reads this, data
      requires Valid() && r < rows && c < columns
      ensures x == cells[r][c]
    {
      data[Offset(r, c, columns)]
    }

    /** Writes one cell through the row pointer; no other cell changes. */
    method Set(r: nat, c: nat, v: T)
      requires Valid() && r < rows && c < columns
      modifies this, data
      ensures Valid() && rows == old(rows) && columns == old(columns) && data == old(data)
      ensures cells == old(cells)[r := old(cells)[r][c := v]]
    {
      data[Offset(r, c, columns)] := v;
      cells := cells[r := cells[r][c := v]];
      forall r', c' | 0 <= r' < rows && 0 <= c' < columns
        ensures data[Offset(r', c', columns)] == cells[r'][c']
      {
        OffsetInjective(r', c', r, c, columns);
      }
    }

    /** Sets both dimensions; the flat buffer keeps its leading elements and is
        cut or padded with value-initialised elements to rows * columns, so a
        cell keeps the value at its new flat position. */
    method Resize(rows: nat, columns: nat)
      requires Valid()
      modifies this
      ensures Valid() && this.rows == rows && this.columns == columns && fresh(data)
      ensures forall i | 0 <= i < data.Length ::
        data[i] == if i < old(data.Length) then old(data[i]) else zero
      ensures forall r, c | 0 <= r < rows && 0 <= c < columns ::
        cells[r][c] == if Offset(r, c, columns) < old(data.Length) then old(data[Offset(r, c, columns)]) else zero
    {
      var snap := data[..];
      var nd := new T[rows * columns](i => if 0 <= i < |snap| then snap[i] else zero);
      this.rows := rows;
      this.columns := columns;
      data := nd;
      cells := seq(rows, r requires 0 <= r => seq(columns, c requires 0 <= c => if Offset(r, c, columns) < |snap| then snap[Offset(r, c, columns)] else zero));
      forall r, c | 0 <= r < rows && 0 <= c < columns ensures Offset(r, c, columns) < data.Length {
        OffsetInRange(r, c, rows, columns);
      }
    }

    /** A copy with its own buffer. */
    method Clone() returns (m: Matrix<T>)
      requires Valid()
      ensures fresh(m) && fresh(m.data) && m.Valid()
      ensures m.rows == rows && m.columns == columns && m.zero == zero
      ensures m.data[..] == data[..] && m.cells == cells
    {
      m := new Matrix(rows, columns, zero);
      forall i | 0 <= i < data.Length {
        m.data[i] := data[i];
      }
      m.cells := cells;
    }
  }
}
