/**
 Geoid separation by interpolation in a table of whole metres at every tenth degree
 (geoid.c), over exact reals.
 */
module Geoid {
  const GEOID_ROW: nat := 19
  const GEOID_COL: nat := 37

  // A row holds whole metres from -102 to 76, and ends as it begins: its first and last
  // columns are the same meridian.
  predicate IsRow(r: seq<int>)
  {
    && |r| == GEOID_COL && r[0] == r[36]
    && forall j :: 0 <= j < GEOID_COL ==> -102 <= r[j] <= 76
  }

  function Row90S(): (r: seq<int>)
    ensures IsRow(r) && forall j :: 0 <= j < GEOID_COL ==> r[j] == -30
  {
    [-30, -30, -30, -30, -30, -30, -30, -30, -30, -30, -30, -30, -30, -30, -30, -30, -30, -30, -30,
     -30, -30, -30, -30, -30, -30, -30, -30, -30, -30, -30, -30, -30, -30, -30, -30, -30, -30]
  }

  function Row80S(): (r: seq<int>)
    ensures IsRow(r)
  {
    [-53, -54, -55, -52, -48, -42, -38, -38, -29, -26, -26, -24, -23, -21, -19, -16, -12, -8, -4,
     -1, 1, 4, 4, 6, 5, 4, 2, -6, -15, -24, -33, -40, -48, -50, -53, -52, -53]
  }

  function Row70S(): (r: seq<int>)
    ensures IsRow(r)
  {
    [-61, -60, -61, -55, -49, -44, -38, -31, -25, -16, -6, 1, 4, 5, 4, 2, 6, 12, 16,
     16, 17, 21, 20, 26, 26, 22, 16, 10, -1, -16, -29, -36, -46, -55, -54, -59, -61]
  }

  function Row60S(): (r: seq<int>)
    ensures IsRow(r)
  {
    [-45, -43, -37, -32, -30, -26, -23, -22, -16, -10, -2, 10, 20, 20, 21, 24, 22, 17, 16,
     19, 25, 30, 35, 35, 33, 30, 27, 10, -2, -14, -23, -30, -33, -29, -35, -43, -45]
  }

  function Row50S(): (r: seq<int>)
    ensures IsRow(r)
  {
    [-15, -18, -18, -16, -17, -15, -10, -10, -8, -2, 6, 14, 13, 3, 3, 10, 20, 27, 25,
     26, 34, 39, 45, 45, 38, 39, 28, 13, -1, -15, -22, -22, -18, -15, -14, -10, -15]
  }

  function Row40S(): (r: seq<int>)
    ensures IsRow(r)
  {
    [21, 6, 1, -7, -12, -12, -12, -10, -7, -1, 8, 23, 15, -2, -6, 6, 21, 24, 18,
     26, 31, 33, 39, 41, 30, 24, 13, -2, -20, -32, -33, -27, -14, -2, 5, 20, 21]
  }

  function Row30S(): (r: seq<int>)
    ensures IsRow(r)
  {
    [46, 22, 5, -2, -8, -13, -10, -7, -4, 1, 9, 32, 16, 4, -8, 4, 12, 15, 22,
     27, 34, 29, 14, 15, 15, 7, -9, -25, -37, -39, -23, -14, 15, 33, 34, 45, 46]
  }

  function Row20S(): (r: seq<int>)
    ensures IsRow(r)
  {
    [51, 27, 10, 0, -9, -11, -5, -2, -3, -1, 9, 35, 20, -5, -6, -5, 0, 13, 17,
     23, 21, 8, -9, -10, -11, -20, -40, -47, -45, -25, 5, 23, 45, 58, 57, 63, 51]
  }

  function Row10S(): (r: seq<int>)
    ensures IsRow(r)
  {
    [36, 22, 11, 6, -1, -8, -10, -8, -11, -9, 1, 32, 4, -18, -13, -9, 4, 14, 12,
     13, -2, -14, -25, -32, -38, -60, -75, -63, -26, 0, 35, 52, 68, 76, 64, 52, 36]
  }

  function Row00N(): (r: seq<int>)
    ensures IsRow(r)
  {
    [22, 16, 17, 13, 1, -12, -23, -20, -14, -3, 14, 10, -15, -27, -18, 3, 12, 20, 18,
     12, -13, -9, -28, -49, -62, -89, -102, -63, -9, 33, 58, 73, 74, 63, 50, 32, 22]
  }

  function Row10N(): (r: seq<int>)
    ensures IsRow(r)
  {
    [13, 12, 11, 2, -11, -28, -38, -29, -10, 3, 1, -11, -41, -42, -16, 3, 17, 33, 22,
     23, 2, -3, -7, -36, -59, -90, -95, -63, -24, 12, 53, 60, 58, 46, 36, 26, 13]
  }

  function Row20N(): (r: seq<int>)
    ensures IsRow(r)
  {
    [5, 10, 7, -7, -23, -39, -47, -34, -9, -10, -20, -45, -48, -32, -9, 17, 25, 31, 31,
     26, 15, 6, 1, -29, -44, -61, -67, -59, -36, -11, 21, 39, 49, 39, 22, 10, 5]
  }

  function Row30N(): (r: seq<int>)
    ensures IsRow(r)
  {
    [-7, -5, -8, -15, -28, -40, -42, -29, -22, -26, -32, -51, -40, -17, 17, 31, 34, 44, 36,
     28, 29, 17, 12, -20, -15, -40, -33, -34, -34, -28, 7, 29, 43, 20, 4, -6, -7]
  }

  function Row40N(): (r: seq<int>)
    ensures IsRow(r)
  {
    [-12, -10, -13, -20, -31, -34, -21, -16, -26, -34, -33, -35, -26, 2, 33, 59, 52, 51, 52,
     48, 35, 40, 33, -9, -28, -39, -48, -59, -50, -28, 3, 23, 37, 18, -1, -11, -12]
  }

  function Row50N(): (r: seq<int>)
    ensures IsRow(r)
  {
    [-8, 8, 8, 1, -11, -19, -16, -18, -22, -35, -40, -26, -12, 24, 45, 63, 62, 59, 47,
     48, 42, 28, 12, -10, -19, -33, -43, -42, -43, -29, -2, 17, 23, 22, 6, 2, -8]
  }

  function Row60N(): (r: seq<int>)
    ensures IsRow(r)
  {
    [2, 9, 17, 10, 13, 1, -14, -30, -39, -46, -42, -21, 6, 29, 49, 65, 60, 57, 47,
     41, 21, 18, 14, 7, -3, -22, -29, -32, -32, -26, -15, -2, 13, 17, 19, 6, 2]
  }

  function Row70N(): (r: seq<int>)
    ensures IsRow(r)
  {
    [2, 2, 1, -1, -3, -7, -14, -24, -27, -25, -19, 3, 24, 37, 47, 60, 61, 58, 51,
     43, 29, 20, 12, 5, -2, -10, -14, -12, -10, -14, -12, -6, -2, 3, 6, 4, 2]
  }

  function Row80N(): (r: seq<int>)
    ensures IsRow(r)
  {
    [3, 1, -2, -3, -3, -3, -1, 3, 1, 5, 9, 11, 19, 27, 31, 34, 33, 34, 33,
     34, 28, 23, 17, 13, 9, 4, 4, 1, -2, -2, 0, 2, 3, 2, 1, 1, 3]
  }

  function Row90N(): (r: seq<int>)
    ensures IsRow(r) && forall j :: 0 <= j < GEOID_COL ==> r[j] == 13
  {
    [13, 13, 13, 13, 13, 13, 13, 13, 13, 13, 13, 13, 13, 13, 13, 13, 13, 13, 13,
     13, 13, 13, 13, 13, 13, 13, 13, 13, 13, 13, 13, 13, 13, 13, 13, 13, 13]
  }

  // The entries of a row, each times its place, added up.
  function Weighted(r: seq<int>): int
    requires |r| == GEOID_COL
  {
    r[0] + 2 * r[1] + 3 * r[2] + 4 * r[3] + 5 * r[4] + 6 * r[5] + 7 * r[6] + 8 * r[7]
    + 9 * r[8] + 10 * r[9] + 11 * r[10] + 12 * r[11] + 13 * r[12] + 14 * r[13] + 15 * r[14] + 16 * r[15]
    + 17 * r[16] + 18 * r[17] + 19 * r[18] + 20 * r[19] + 21 * r[20] + 22 * r[21] + 23 * r[22] + 24 * r[23]
    + 25 * r[24] + 26 * r[25] + 27 * r[26] + 28 * r[27] + 29 * r[28] + 30 * r[29] + 31 * r[30] + 32 * r[31]
    + 33 * r[32] + 34 * r[33] + 35 * r[34] + 36 * r[35] + 37 * r[36]
  }

  // A check on the rows, from south to north.
  lemma Sum90S()
    ensures |Row90S()| == GEOID_COL && Weighted(Row90S()) == -21090
  {
    hide IsRow;
  }

  lemma Sum80S()
    ensures |Row80S()| == GEOID_COL && Weighted(Row80S()) == -16239
  {
    hide IsRow;
  }

  lemma Sum70S()
    ensures |Row70S()| == GEOID_COL && Weighted(Row70S()) == -9272
  {
    hide IsRow;
  }

  lemma Sum60S()
    ensures |Row60S()| == GEOID_COL && Weighted(Row60S()) == -1776
  {
    hide IsRow;
  }

  lemma Sum50S()
    ensures |Row50S()| == GEOID_COL && Weighted(Row50S()) == 4282
  {
    hide IsRow;
  }

  lemma Sum40S()
    ensures |Row40S()| == GEOID_COL && Weighted(Row40S()) == 4469
  {
    hide IsRow;
  }

  lemma Sum30S()
    ensures |Row30S()| == GEOID_COL && Weighted(Row30S()) == 6323
  {
    hide IsRow;
  }

  lemma Sum20S()
    ensures |Row20S()| == GEOID_COL && Weighted(Row20S()) == 6914
  {
    hide IsRow;
  }

  lemma Sum10S()
    ensures |Row10S()| == GEOID_COL && Weighted(Row10S()) == 4700
  {
    hide IsRow;
  }

  lemma Sum00N()
    ensures |Row00N()| == GEOID_COL && Weighted(Row00N()) == 2728
  {
    hide IsRow;
  }

  lemma Sum10N()
    ensures |Row10N()| == GEOID_COL && Weighted(Row10N()) == -187
  {
    hide IsRow;
  }

  lemma Sum20N()
    ensures |Row20N()| == GEOID_COL && Weighted(Row20N()) == -2306
  {
    hide IsRow;
  }

  lemma Sum30N()
    ensures |Row30N()| == GEOID_COL && Weighted(Row30N()) == -1218
  {
    hide IsRow;
  }

  lemma Sum40N()
    ensures |Row40N()| == GEOID_COL && Weighted(Row40N()) == -270
  {
    hide IsRow;
  }

  lemma Sum50N()
    ensures |Row50N()| == GEOID_COL && Weighted(Row50N()) == 1865
  {
    hide IsRow;
  }

  lemma Sum60N()
    ensures |Row60N()| == GEOID_COL && Weighted(Row60N()) == 3063
  {
    hide IsRow;
  }

  lemma Sum70N()
    ensures |Row70N()| == GEOID_COL && Weighted(Row70N()) == 5008
  {
    hide IsRow;
  }

  lemma Sum80N()
    ensures |Row80N()| == GEOID_COL && Weighted(Row80N()) == 6932
  {
    hide IsRow;
  }

  lemma Sum90N()
    ensures |Row90N()| == GEOID_COL && Weighted(Row90N()) == 9139
  {
    hide IsRow;
  }

  type Table = seq<seq<int>>

  // The rows, from south to north.  Each pole has one value all along its row.
  ghost predicate IsTable(t: Table)
  {
    && |t| == GEOID_ROW
    && (forall i :: 0 <= i < GEOID_ROW ==> IsRow(t[i]))
    && (forall j :: 0 <= j < GEOID_COL ==> t[0][j] == -30)
    && (forall j :: 0 <= j < GEOID_COL ==> t[18][j] == 13)
  }

  function GeoidDelta(): Table
  {
    [Row90S(), Row80S(), Row70S(), Row60S(), Row50S(),
     Row40S(), Row30S(), Row20S(), Row10S(), Row00N(),
     Row10N(), Row20N(), Row30N(), Row40N(), Row50N(),
     Row60N(), Row70N(), Row80N(), Row90N()]
  }

  // The table of the code is one.
  lemma GeoidDeltaIsTable()
    ensures IsTable(GeoidDelta())
  {
    hide IsRow, Row90S, Row80S, Row70S, Row60S, Row50S, Row40S, Row30S, Row20S, Row10S;
    hide Row00N, Row10N, Row20N, Row30N, Row40N, Row50N, Row60N, Row70N, Row80N, Row90N;
  }

  //////////////////////////////////////////////////////////////////////////////
  // The code
  //////////////////////////////////////////////////////////////////////////////

  function Bilinear(x1: real, y1: real, x2: real, y2: real, x: real, y: real,
                    z11: real, z12: real, z21: real, z22: real): real
  {
    if y1 == y2 && x1 == x2 then z11
    else if y1 == y2 && x1 != x2 then (z22 * (x - x1) + z11 * (x2 - x)) / (x2 - x1)
    else if x1 == x2 && y1 != y2 then (z22 * (y - y1) + z11 * (y2 - y)) / (y2 - y1)
    else
      var delta := (y2 - y1) * (x2 - x1);
      assert delta != 0.0;
      (z22 * (y - y1) * (x - x1) + z12 * (y2 - y) * (x - x1)
       + z21 * (y - y1) * (x2 - x) + z11 * (y2 - y) * (x2 - x)) / delta
  }

  function Lat(ilat: int): real
  {
    ilat as real * 10.0 - 90.0
  }

  function Lon(ilon: int): real
  {
    ilon as real * 10.0 - 180.0
  }

  // The next row or column, but for the last.
  function Above(i: int, n: nat): int
  {
    if i < n - 1 then i + 1 else i
  }

  // Interpolation in one cell of the table.
  function Cell(t: Table, ilat: nat, ilon: nat, lat: real, lon: real): real
    requires IsTable(t) && ilat < GEOID_ROW && ilon < GEOID_COL
  {
    var ilat2, ilon2 := Above(ilat, GEOID_ROW), Above(ilon, GEOID_COL);
    Bilinear(Lon(ilon), Lat(ilat), Lon(ilon2), Lat(ilat2), lon, lat,
             t[ilat][ilon] as real, t[ilat][ilon2] as real,
             t[ilat2][ilon] as real, t[ilat2][ilon2] as real)
  }

  function RowOf(lat: real): int
  {
    ((90.0 + lat) / 10.0).Floor
  }

  function ColumnOf(lon: real): int
  {
    ((180.0 + lon) / 10.0).Floor
  }

  // What the sanity checks turn away.
  predicate Refused(lat: real, lon: real)
  {
    RowOf(lat) > 90 || RowOf(lat) < -90 || ColumnOf(lon) > 180 || ColumnOf(lon) < -180
  }

  // A point of the globe.
  predicate OnGlobe(lat: real, lon: real)
  {
    -90.0 <= lat <= 90.0 && -180.0 <= lon <= 180.0
  }

  // The code keeps the table in one array; this is where it looks for an entry.
  function Index(row: int, column: int): int
  {
    column + row * GEOID_COL
  }

  function Entry(t: Table, k: nat): int
    requires IsTable(t) && k < GEOID_ROW * GEOID_COL
  {
    t[k / GEOID_COL][k % GEOID_COL]
  }

  predicate InArray(row: int, column: int)
  {
    0 <= Index(row, column) < GEOID_ROW * GEOID_COL
  }

  // All four corners that the code reads are entries of the array.
  predicate ReadsInside(lat: real, lon: real)
  {
    var i, j := RowOf(lat), ColumnOf(lon);
    var i2, j2 := Above(i, GEOID_ROW), Above(j, GEOID_COL);
    InArray(i, j) && InArray(i, j2) && InArray(i2, j) && InArray(i2, j2)
  }

  // wgs84_separation, for all points on which C defines it.  The checks let through points
  // off the globe, with some of which it reads outside the array.
  function Separation(t: Table, lat: real, lon: real): real
    requires IsTable(t) && (Refused(lat, lon) || ReadsInside(lat, lon))
  {
    if Refused(lat, lon) then 0.0
    else
      var i, j := RowOf(lat), ColumnOf(lon);
      var i2, j2 := Above(i, GEOID_ROW), Above(j, GEOID_COL);
      Bilinear(Lon(j), Lat(i), Lon(j2), Lat(i2), lon, lat,
               Entry(t, Index(i, j)) as real, Entry(t, Index(i, j2)) as real,
               Entry(t, Index(i2, j)) as real, Entry(t, Index(i2, j2)) as real)
  }

  lemma EntryAt(t: Table, row: nat, column: nat)
    requires IsTable(t) && row < GEOID_ROW && column < GEOID_COL
    ensures InArray(row, column) && Entry(t, Index(row, column)) == t[row][column]
  {
    assert Index(row, column) / GEOID_COL == row && Index(row, column) % GEOID_COL == column;
  }

  // The reads are inside exactly if the first and the last of them are.
  lemma ReadsInsideIff(lat: real, lon: real)
    ensures ReadsInside(lat, lon)
       <==> && 0 <= Index(RowOf(lat), ColumnOf(lon))
            && Index(Above(RowOf(lat), GEOID_ROW), Above(ColumnOf(lon), GEOID_COL)) < GEOID_ROW * GEOID_COL
  {
    hide RowOf, ColumnOf;
  }

  // For longitudes of the globe: exactly if the latitude is in [-90, 100).  The checks stop only
  // latitudes from 820 up and below -990, and longitudes from 1630 up and below -1980.
  lemma SafeLatitudes(lat: real, lon: real)
    ensures -180.0 <= lon <= 180.0 ==> (ReadsInside(lat, lon) <==> -90.0 <= lat < 100.0)
    ensures Refused(lat, lon) <==> lat >= 820.0 || lat < -990.0 || lon >= 1630.0 || lon < -1980.0
  {
    ReadsInsideIff(lat, lon);
    if -180.0 <= lon <= 180.0 {
      assert 0 <= ColumnOf(lon) <= 36;
      assert 0 <= RowOf(lat) <= 18 <==> -90.0 <= lat < 100.0;
    }
  }

  // A latitude of 100 passes the checks and reads behind the array; one of -100 in front of it.
  lemma ReadsOutside()
    ensures !Refused(100.0, 0.0) && Index(RowOf(100.0), ColumnOf(0.0)) > GEOID_ROW * GEOID_COL
    ensures !Refused(-100.0, 0.0) && Index(RowOf(-100.0), ColumnOf(0.0)) < 0
  {
    assert RowOf(100.0) == 19 && ColumnOf(0.0) == 18 && RowOf(-100.0) == -1;
  }

  // On the globe the four entries are those of the cell.
  lemma SeparationIsCell(t: Table, lat: real, lon: real)
    requires IsTable(t) && OnGlobe(lat, lon)
    ensures 0 <= RowOf(lat) < GEOID_ROW && 0 <= ColumnOf(lon) < GEOID_COL && ReadsInside(lat, lon)
    ensures Separation(t, lat, lon) == Cell(t, RowOf(lat), ColumnOf(lon), lat, lon)
  {
    InTable(lat, lon);
    var i, j := RowOf(lat), ColumnOf(lon);
    var i2, j2 := Above(i, GEOID_ROW), Above(j, GEOID_COL);
    assert i <= i2 < GEOID_ROW && j <= j2 < GEOID_COL;
    hide RowOf, ColumnOf, Bilinear, Index, Entry, Lat, Lon, Above, IsTable;
    EntryAt(t, i, j);
    EntryAt(t, i, j2);
    EntryAt(t, i2, j);
    EntryAt(t, i2, j2);
  }

  lemma InTable(lat: real, lon: real)
    requires OnGlobe(lat, lon)
    ensures 0 <= RowOf(lat) < GEOID_ROW && 0 <= ColumnOf(lon) < GEOID_COL && !Refused(lat, lon)
    ensures Lat(RowOf(lat)) <= lat < Lat(RowOf(lat) + 1) && Lon(ColumnOf(lon)) <= lon < Lon(ColumnOf(lon) + 1)
    ensures lat <= Lat(Above(RowOf(lat), GEOID_ROW)) && lon <= Lon(Above(ColumnOf(lon), GEOID_COL))
  {
  }

  //////////////////////////////////////////////////////////////////////////////
  // Interpolation along a line
  //////////////////////////////////////////////////////////////////////////////

  // Between a and b, at distance d of ten.
  function Lerp(a: real, b: real, d: real): real
  {
    (b * d + a * (10.0 - d)) / 10.0
  }

  lemma LerpBetween(a: real, b: real, d: real, lo: real, hi: real)
    requires 0.0 <= d <= 10.0 && lo <= a <= hi && lo <= b <= hi
    ensures lo <= Lerp(a, b, d) <= hi
  {
    FromAbove(a, b, d, lo);
    FromAbove(-a, -b, d, -hi);
    Negated(a, b, d);
  }

  // Lerp(a, b, d) - lo is the interpolation of a - lo and b - lo.
  lemma FromAbove(a: real, b: real, d: real, lo: real)
    requires 0.0 <= d <= 10.0 && lo <= a && lo <= b
    ensures lo <= Lerp(a, b, d)
  {
    var p, q, s := (b - lo) * d, (a - lo) * (10.0 - d), b * d + a * (10.0 - d);
    Positive(b - lo, d);
    Positive(a - lo, 10.0 - d);
    Shifted(a, b, d, lo);
    assert s - 10.0 * lo == p + q >= 0.0;
    assert Lerp(a, b, d) == s / 10.0;
  }

  lemma Positive(a: real, d: real)
    requires a >= 0.0 && d >= 0.0
    ensures a * d >= 0.0
  {
  }

  lemma Shifted(a: real, b: real, d: real, lo: real)
    ensures b * d + a * (10.0 - d) - 10.0 * lo == (b - lo) * d + (a - lo) * (10.0 - d)
  {
  }

  lemma Negated(a: real, b: real, d: real)
    ensures Lerp(-a, -b, d) == -Lerp(a, b, d)
  {
  }

  // Inside the table a cell interpolates along both its rows, and then between them.
  lemma CellLerp(x1: real, y1: real, x: real, y: real, z11: real, z12: real, z21: real, z22: real)
    ensures Bilinear(x1, y1, x1 + 10.0, y1 + 10.0, x, y, z11, z12, z21, z22)
         == Lerp(Lerp(z11, z12, x - x1), Lerp(z21, z22, x - x1), y - y1)
  {
    var u, v := x - x1, y - y1;
    var a, b := 10.0 - u, 10.0 - v;
    assert (x1 + 10.0) - x == a && (y1 + 10.0) - y == b;
    Expand(u, v, a, b, z11, z12, z21, z22);
  }

  lemma Expand(u: real, v: real, a: real, b: real, z11: real, z12: real, z21: real, z22: real)
    ensures (z22 * v * u + z12 * b * u + z21 * v * a + z11 * b * a) / 100.0
         == (((z22 * u + z21 * a) / 10.0) * v + ((z12 * u + z11 * a) / 10.0) * b) / 10.0
  {
  }

  //////////////////////////////////////////////////////////////////////////////
  // Every cell that holds a point gives it the same separation
  //////////////////////////////////////////////////////////////////////////////

  // The closed rectangle of a cell; in the last row and column it is a segment or a point.
  predicate InCell(ilat: nat, ilon: nat, lat: real, lon: real)
    requires ilat < GEOID_ROW && ilon < GEOID_COL
  {
    Lat(ilat) <= lat <= Lat(Above(ilat, GEOID_ROW)) && Lon(ilon) <= lon <= Lon(Above(ilon, GEOID_COL))
  }

  // The value at a longitude of one table row.
  function Along(t: Table, row: nat, ilon: nat, lon: real): real
    requires IsTable(t) && row < GEOID_ROW && ilon < GEOID_COL
  {
    Lerp(t[row][ilon] as real, t[row][Above(ilon, GEOID_COL)] as real, lon - Lon(ilon))
  }

  // Interpolation between the two rows of a cell, in the degenerate cells too.
  function Between(t: Table, ilat: nat, ilon: nat, lat: real, lon: real): real
    requires IsTable(t) && ilat < GEOID_ROW && ilon < GEOID_COL
  {
    Lerp(Along(t, ilat, ilon, lon), Along(t, Above(ilat, GEOID_ROW), ilon, lon), lat - Lat(ilat))
  }

  lemma LerpEnds(a: real, b: real)
    ensures Lerp(a, b, 0.0) == a && Lerp(a, b, 10.0) == b
  {
  }

  lemma LerpSame(a: real, d: real)
    ensures Lerp(a, a, d) == a
  {
    assert a * d + a * (10.0 - d) == a * 10.0;
  }

  lemma Steps(i: int)
    ensures Lat(i + 1) == Lat(i) + 10.0 && Lon(i + 1) == Lon(i) + 10.0
  {
  }

  lemma CellBetween(t: Table, ilat: nat, ilon: nat, lat: real, lon: real)
    requires IsTable(t) && ilat < GEOID_ROW && ilon < GEOID_COL && InCell(ilat, ilon, lat, lon)
    ensures Cell(t, ilat, ilon, lat, lon) == Between(t, ilat, ilon, lat, lon)
  {
    hide Lerp, Lat, Lon;
    Steps(ilat);
    Steps(ilon);
    var i2, j2 := Above(ilat, GEOID_ROW), Above(ilon, GEOID_COL);
    var z11, z12 := t[ilat][ilon] as real, t[ilat][j2] as real;
    var z21, z22 := t[i2][ilon] as real, t[i2][j2] as real;
    var u, v := lon - Lon(ilon), lat - Lat(ilat);
    if i2 == ilat {
      LerpSame(Along(t, ilat, ilon, lon), v);
      if j2 == ilon {
        LerpSame(z11, u);
      } else {
        RowLerp(Lon(ilon), lon, z11, z22);
      }
    } else if j2 == ilon {
      LerpSame(z11, u);
      LerpSame(z22, u);
      RowLerp(Lat(ilat), lat, z11, z22);
    } else {
      hide Bilinear;
      CellLerp(Lon(ilon), Lat(ilat), lon, lat, z11, z12, z21, z22);
    }
  }

  lemma RowLerp(x1: real, x: real, a: real, b: real)
    ensures (b * (x - x1) + a * ((x1 + 10.0) - x)) / ((x1 + 10.0) - x1) == Lerp(a, b, x - x1)
  {
    assert (x1 + 10.0) - x == 10.0 - (x - x1);
  }

  // Cells side by side agree on the edge between them.
  lemma AcrossColumns(t: Table, row: nat, j: nat, k: nat, lon: real)
    requires IsTable(t) && row < GEOID_ROW && j < GEOID_COL && k < GEOID_COL
    requires Lon(j) <= lon <= Lon(Above(j, GEOID_COL)) && Lon(k) <= lon <= Lon(Above(k, GEOID_COL))
    ensures Along(t, row, j, lon) == Along(t, row, k, lon)
  {
    hide Lerp;
    if j < k {
      assert k == j + 1 && lon == Lon(k);
      LerpEnds(t[row][j] as real, t[row][k] as real);
      LerpEnds(t[row][k] as real, t[row][Above(k, GEOID_COL)] as real);
    } else if k < j {
      assert j == k + 1 && lon == Lon(j);
      LerpEnds(t[row][k] as real, t[row][j] as real);
      LerpEnds(t[row][j] as real, t[row][Above(j, GEOID_COL)] as real);
    }
  }

  // Cells above each other agree on the edge between them.
  lemma AcrossRows(t: Table, i: nat, k: nat, j: nat, lat: real, lon: real)
    requires IsTable(t) && i < GEOID_ROW && k < GEOID_ROW && j < GEOID_COL
    requires Lat(i) <= lat <= Lat(Above(i, GEOID_ROW)) && Lat(k) <= lat <= Lat(Above(k, GEOID_ROW))
    ensures Between(t, i, j, lat, lon) == Between(t, k, j, lat, lon)
  {
    hide Lerp, Along;
    if i < k {
      assert k == i + 1 && lat == Lat(k);
      LerpEnds(Along(t, i, j, lon), Along(t, k, j, lon));
      LerpEnds(Along(t, k, j, lon), Along(t, Above(k, GEOID_ROW), j, lon));
    } else if k < i {
      assert i == k + 1 && lat == Lat(i);
      LerpEnds(Along(t, k, j, lon), Along(t, i, j, lon));
      LerpEnds(Along(t, i, j, lon), Along(t, Above(i, GEOID_ROW), j, lon));
    }
  }

  // The separation is continuous: whichever cell a point on an edge or a corner is
  // counted to, and whether or not that cell is degenerate, the value is the same.
  lemma AnyCell(t: Table, ilat: nat, ilon: nat, lat: real, lon: real)
    requires IsTable(t) && ilat < GEOID_ROW && ilon < GEOID_COL && InCell(ilat, ilon, lat, lon)
    ensures OnGlobe(lat, lon) && Separation(t, lat, lon) == Cell(t, ilat, ilon, lat, lon)
  {
    hide Cell, Between, Along, Separation, ReadsInside;
    InTable(lat, lon);
    SeparationIsCell(t, lat, lon);
    var i, j := RowOf(lat), ColumnOf(lon);
    CellBetween(t, ilat, ilon, lat, lon);
    CellBetween(t, i, j, lat, lon);
    AcrossRows(t, i, ilat, j, lat, lon);
    SameColumns(t, ilat, j, ilon, lat, lon);
  }

  lemma SameColumns(t: Table, i: nat, j: nat, k: nat, lat: real, lon: real)
    requires IsTable(t) && i < GEOID_ROW && j < GEOID_COL && k < GEOID_COL
    requires Lon(j) <= lon <= Lon(Above(j, GEOID_COL)) && Lon(k) <= lon <= Lon(Above(k, GEOID_COL))
    ensures Between(t, i, j, lat, lon) == Between(t, i, k, lat, lon)
  {
    hide Lerp, Along;
    AcrossColumns(t, i, j, k, lon);
    AcrossColumns(t, Above(i, GEOID_ROW), j, k, lon);
  }

  //////////////////////////////////////////////////////////////////////////////
  // What follows
  //////////////////////////////////////////////////////////////////////////////

  // At a point of the table the separation is the table's.
  lemma AtGridPoint(t: Table, ilat: nat, ilon: nat)
    requires IsTable(t) && ilat < GEOID_ROW && ilon < GEOID_COL
    ensures OnGlobe(Lat(ilat), Lon(ilon)) && Separation(t, Lat(ilat), Lon(ilon)) == t[ilat][ilon] as real
  {
    hide Cell, Lerp, Separation, ReadsInside;
    var j2, i2 := Above(ilon, GEOID_COL), Above(ilat, GEOID_ROW);
    AnyCell(t, ilat, ilon, Lat(ilat), Lon(ilon));
    CellBetween(t, ilat, ilon, Lat(ilat), Lon(ilon));
    LerpEnds(t[ilat][ilon] as real, t[ilat][j2] as real);
    LerpEnds(Along(t, ilat, ilon, Lon(ilon)), Along(t, i2, ilon, Lon(ilon)));
  }

  // Inside a cell the separation lies between the smallest and the largest of its corners.
  lemma WithinCorners(t: Table, lat: real, lon: real, lo: real, hi: real)
    requires IsTable(t) && OnGlobe(lat, lon)
    requires 0 <= RowOf(lat) < GEOID_ROW && 0 <= ColumnOf(lon) < GEOID_COL
    requires var i, j := RowOf(lat), ColumnOf(lon);
      var i2, j2 := Above(i, GEOID_ROW), Above(j, GEOID_COL);
      && lo <= t[i][j] as real <= hi && lo <= t[i][j2] as real <= hi
      && lo <= t[i2][j] as real <= hi && lo <= t[i2][j2] as real <= hi
    ensures lo <= Separation(t, lat, lon) <= hi
  {
    hide Cell, Lerp, Separation, ReadsInside;
    InTable(lat, lon);
    SeparationIsCell(t, lat, lon);
    var i, j := RowOf(lat), ColumnOf(lon);
    var i2, j2 := Above(i, GEOID_ROW), Above(j, GEOID_COL);
    CellBetween(t, i, j, lat, lon);
    LerpBetween(t[i][j] as real, t[i][j2] as real, lon - Lon(j), lo, hi);
    LerpBetween(t[i2][j] as real, t[i2][j2] as real, lon - Lon(j), lo, hi);
    LerpBetween(Along(t, i, j, lon), Along(t, i2, j, lon), lat - Lat(i), lo, hi);
  }

  // Everywhere on the globe it lies between -102 and 76 metres.
  lemma WorldBounds(t: Table, lat: real, lon: real)
    requires IsTable(t) && OnGlobe(lat, lon)
    ensures -102.0 <= Separation(t, lat, lon) <= 76.0
  {
    hide Separation, ReadsInside;
    InTable(lat, lon);
    var i, j := RowOf(lat), ColumnOf(lon);
    var i2, j2 := Above(i, GEOID_ROW), Above(j, GEOID_COL);
    WithinCorners(t, lat, lon, -102.0, 76.0);
  }

  // Both notations of the 180th meridian give the same separation.
  lemma DateLine(t: Table, lat: real)
    requires IsTable(t) && -90.0 <= lat <= 90.0
    ensures Separation(t, lat, -180.0) == Separation(t, lat, 180.0)
  {
    hide Cell, Lerp, Separation, ReadsInside;
    InTable(lat, -180.0);
    InTable(lat, 180.0);
    SeparationIsCell(t, lat, -180.0);
    SeparationIsCell(t, lat, 180.0);
    var i := RowOf(lat);
    var i2 := Above(i, GEOID_ROW);
    CellBetween(t, i, 0, lat, -180.0);
    CellBetween(t, i, 36, lat, 180.0);
    LerpEnds(t[i][0] as real, t[i][1] as real);
    LerpEnds(t[i2][0] as real, t[i2][1] as real);
    LerpEnds(t[i][36] as real, t[i][36] as real);
    LerpEnds(t[i2][36] as real, t[i2][36] as real);
    assert IsRow(t[i]) && IsRow(t[i2]);
  }

  // The poles have one separation, whatever longitude they are given.
  lemma Poles(t: Table, lon: real)
    requires IsTable(t) && -180.0 <= lon <= 180.0
    ensures Separation(t, -90.0, lon) == -30.0 && Separation(t, 90.0, lon) == 13.0
  {
    hide Cell, Separation, ReadsInside;
    InTable(-90.0, lon);
    InTable(90.0, lon);
    SeparationIsCell(t, -90.0, lon);
    SeparationIsCell(t, 90.0, lon);
    var j := ColumnOf(lon);
    CellBetween(t, 0, j, -90.0, lon);
    CellBetween(t, 18, j, 90.0, lon);
    hide Lerp;
    LerpSame(-30.0, lon - Lon(j));
    LerpSame(13.0, lon - Lon(j));
    LerpEnds(Along(t, 0, j, lon), Along(t, 1, j, lon));
    LerpEnds(Along(t, 18, j, lon), Along(t, 18, j, lon));
  }
}
