/** The constant calibration tables of the two sensors and the integer
    scaler inverses. A table is a list of (x, y) points in ascending x order,
    closed by a terminator row. */
module Interpolation {
  import opened Board

  /** INTERPOLATION_X_INDEX and INTERPOLATION_Y_INDEX: the column selector. */
  const XIndex: byte := 0
  const YIndex: byte := 1

  /** INTERPOLATION_TERMINATOR */
  const Terminator: byte := 0xff

  datatype Point = Point(x: byte, y: byte)

  /** no2_ppb; the last row is the INTERPOLATION_TERMINATOR row. */
  const No2Ppb: seq<Point> := [
    Point(62, 117), Point(75, 131), Point(101, 152), Point(149, 188),
    Point(174, 204), Point(199, 219), Point(223, 233), Point(247, 246),
    Point(0xff, 0xff)]

  /** co_ppb; the last row is the INTERPOLATION_TERMINATOR row. */
  const CoPpb: seq<Point> := [
    Point(134, 250), Point(168, 125), Point(202, 49), Point(232, 12),
    Point(241, 6),
    Point(0xff, 0xff)]

  /** Sensor index 0 is the NO2 sensor; every other index selects the CO table. */
  function TableFor(sensorIndex: byte): (t: seq<Point>)
    ensures sensorIndex == 0 ==> t == No2Ppb
    ensures sensorIndex != 0 ==> t == CoPpb
  {
    if sensorIndex == 0 then No2Ppb else CoPpb
  }

  /** The number of data rows: the position of the first row whose x is the
      terminator (the whole table if none is). */
  function DataRows(rows: seq<Point>): (n: nat)
    ensures n <= |rows|
    ensures n < |rows| ==> rows[n].x == Terminator
    ensures forall j :: 0 <= j < n ==> rows[j].x != Terminator
  {
    if |rows| == 0 || rows[0].x == Terminator then 0 else 1 + DataRows(rows[1..])
  }

  /** Each x is strictly below the next one. */
  predicate AscendingX(rows: seq<Point>) {
    |rows| <= 1 || (rows[0].x < rows[1].x && AscendingX(rows[1..]))
  }

  /** getTableValue: column `getXOrGetY` of row `tableIndex` of the table of
      `sensorIndex`. The C arrays are only read in bounds for a column of 0 or 1
      and a row up to the terminator row, so those are the preconditions. */
  function GetTableValue(sensorIndex: byte, tableIndex: byte, getXOrGetY: byte): (r: byte)
    requires getXOrGetY <= YIndex
    requires tableIndex < |TableFor(sensorIndex)|
    ensures getXOrGetY == XIndex ==> r == TableFor(sensorIndex)[tableIndex].x
    ensures getXOrGetY == YIndex ==> r == TableFor(sensorIndex)[tableIndex].y
  {
    var row := TableFor(sensorIndex)[tableIndex];
    if getXOrGetY == XIndex then row.x else row.y
  }

  /** independent_scaler_inverse */
  const IndependentScalerInverse: seq<uint32> := [10000, 2500]

  /** independent_scaler = {0.0001, 0.0004}, written exactly in units of 1/10000. */
  const IndependentScalerTenThousandths: seq<nat> := [1, 4]

  /** get_independent_scaler_inverse: defined for the hosted sensors only. The
      result is the exact reciprocal of the decimal scaler written in the source. */
  function GetIndependentScalerInverse(sensorIndex: byte): (r: uint32)
    requires sensorIndex < NumHostedSensors
    ensures r * IndependentScalerTenThousandths[sensorIndex] == 10000
  {
    IndependentScalerInverse[sensorIndex]
  }
}

/** What the calibration tables guarantee to the interpolation that reads them. */
module InterpolationProperties {
  import opened Board
  import opened Interpolation

  /** A chain of ascending neighbours is ascending between any two rows. */
  lemma {:induction false} AscendingXPairwise(rows: seq<Point>, i: nat, j: nat)
    requires AscendingX(rows)
    requires i < j < |rows|
    ensures rows[i].x < rows[j].x
  {
    if i == 0 {
      if j > 1 {
        AscendingXPairwise(rows[1..], 0, j - 1);
      }
    } else {
      AscendingXPairwise(rows[1..], i - 1, j - 1);
    }
  }

  /** The NO2 table has eight data rows and the CO table five; each ends in a
      (0xff, 0xff) terminator row, which is the last row. */
  lemma TableShapes()
    ensures DataRows(No2Ppb) == 8 == |No2Ppb| - 1
    ensures DataRows(CoPpb) == 5 == |CoPpb| - 1
    ensures No2Ppb[8] == Point(Terminator, Terminator)
    ensures CoPpb[5] == Point(Terminator, Terminator)
  {
  }

  /** Both tables are in strictly ascending x order, terminator row included. */
  lemma TablesAscending()
    ensures AscendingX(No2Ppb)
    ensures AscendingX(CoPpb)
  {
  }

  /** The x column that getTableValue reads is strictly ascending in the row index. */
  lemma XColumnAscending(sensorIndex: byte, i: byte, j: byte)
    requires i < j < |TableFor(sensorIndex)|
    ensures GetTableValue(sensorIndex, i, XIndex) < GetTableValue(sensorIndex, j, XIndex)
  {
    TablesAscending();
    AscendingXPairwise(TableFor(sensorIndex), i as nat, j as nat);
  }

  /** getTableValue answers the terminator exactly at the terminator row, in
      either column: no data row holds 0xff. */
  lemma TerminatorMarksEnd(sensorIndex: byte, tableIndex: byte, getXOrGetY: byte)
    requires getXOrGetY <= YIndex
    requires tableIndex < |TableFor(sensorIndex)|
    ensures GetTableValue(sensorIndex, tableIndex, getXOrGetY) == Terminator
            <==> tableIndex as int == DataRows(TableFor(sensorIndex))
  {
    TableShapes();
  }
}

