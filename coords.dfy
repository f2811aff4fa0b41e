/**
  Slice descriptors of 1/src/coords.h: Matrix_coords holds four bounds
  (first row, first column, last row, last column); a bound given as -1
  stands for "to the edge of the matrix". Matrix_row_coord and
  Matrix_col_coord name one row or one column.
 */
module Coords {
  import opened Wrappers
  import opened Machine

  /** index[4] and is_all[4] of Matrix_coords. */
  datatype Coords = Coords(index: seq<nat>, isAll: seq<bool>)

  /** index_too_long_error, carrying the first bound r1 whatever bound was refused. */
  datatype CoordsError = IndexTooLong(index: int)

  /** Matrix_row_coord. */
  datatype RowCoord = RowCoord(rowNum: nat)

  /** Matrix_col_coord. */
  datatype ColCoord = ColCoord(colNum: nat)

  /** A bound survives conversion to unsigned, or is the -1 sentinel. */
  predicate BoundFits(x: int) {
    x == -1 || IsUnsigned(x)
  }

  /** What a bound means once accepted: the sentinel flag and the stored index. */
  predicate Describes(c: Coords, bounds: seq<int>)
    requires |bounds| == 4
  {
    |c.index| == 4 && |c.isAll| == 4
    && forall i :: 0 <= i < 4 ==>
         (c.isAll[i] <==> bounds[i] == -1) && c.index[i] == (if bounds[i] == -1 then 0 else bounds[i])
  }

  /**
    Matrix_coords(r1, c1, r2, c2): each bound in turn becomes a sentinel or
    is stored as unsigned; a bound that changes in the conversion throws.
   */
  method MakeCoords(r1: int, c1: int, r2: int, c2: int) returns (r: Result<Coords, CoordsError>)
    ensures r.Success? <==> BoundFits(r1) && BoundFits(c1) && BoundFits(r2) && BoundFits(c2)
    ensures r.Failure? ==> r.error == IndexTooLong(r1)
    ensures r.Success? ==> Describes(r.value, [r1, c1, r2, c2])
  {
    var ind := [r1, c1, r2, c2];
    var index := new nat[4](_ => 0);
    var isAll := new bool[4](_ => false);
    for i := 0 to 4
      invariant forall k :: 0 <= k < i ==> BoundFits(ind[k])
      invariant forall k :: 0 <= k < i ==>
        (isAll[k] <==> ind[k] == -1) && index[k] == (if ind[k] == -1 then 0 else ind[k])
      invariant forall k :: i <= k < 4 ==> !isAll[k]
    {
      var x := ind[i];
      if x == -1 {
        index[i] := 0;
        isAll[i] := true;
      } else {
        index[i] := x % U32;
        if index[i] != x {
          return Failure(IndexTooLong(r1));
        }
      }
    }
    assert ind[0] == r1 && ind[1] == c1 && ind[2] == r2 && ind[3] == c2;
    return Success(Coords(index[..], isAll[..]));
  }

  /** Matrix_coords(r1, c1): the single cell (r1, c1). */
  method MakeCellCoords(r1: int, c1: int) returns (r: Result<Coords, CoordsError>)
    ensures r.Success? <==> BoundFits(r1) && BoundFits(c1)
    ensures r.Failure? ==> r.error == IndexTooLong(r1)
    ensures r.Success? ==> Describes(r.value, [r1, c1, r1, c1])
  {
    r := MakeCoords(r1, c1, r1, c1);
  }

  /** The descriptor slicing by a row coordinate builds: that row, every column. */
  method RowSlice(rc: RowCoord) returns (r: Result<Coords, CoordsError>)
    requires rc.rowNum < U32
    ensures r.Success? && Describes(r.value, [rc.rowNum as int, -1, rc.rowNum, -1])
  {
    r := MakeCoords(rc.rowNum, -1, rc.rowNum, -1);
  }

  /** The descriptor slicing by a column coordinate builds: every row, that column. */
  method ColSlice(cc: ColCoord) returns (r: Result<Coords, CoordsError>)
    requires cc.colNum < U32
    ensures r.Success? && Describes(r.value, [-1 as int, cc.colNum, -1, cc.colNum])
  {
    r := MakeCoords(-1, cc.colNum, -1, cc.colNum);
  }
}
