// Why the columns of fe_mul make the product modulo 2^255 - 19.
module FieldProduct {
  import opened Powers
  import opened Field

  // Limb i of f times all of g.
  function Row(x: int, g: seq<int>): (p: seq<int>)
    requires |g| == 10
    ensures |p| == 10 && forall j | 0 <= j < 10 :: p[j] == Mul64(x, g[j])
  {
    seq(10, j requires 0 <= j < 10 => Mul64(x, g[j]))
  }

  lemma RowValue(x: int, g: seq<int>)
    requires |g| == 10
    ensures FieldValue(Row(x, g)) == x * FieldValue(g)
  {
    MulGroups(x, 0x400_0000, g[1]);
    MulGroups(0x400_0000, x, g[1]);
    MulGroups(x, 0x8_0000_0000_0000, g[2]);
    MulGroups(0x8_0000_0000_0000, x, g[2]);
    MulGroups(x, 0x2000_0000_0000_0000_0000, g[3]);
    MulGroups(0x2000_0000_0000_0000_0000, x, g[3]);
    MulGroups(x, 0x40_0000_0000_0000_0000_0000_0000, g[4]);
    MulGroups(0x40_0000_0000_0000_0000_0000_0000, x, g[4]);
    MulGroups(x, 0x1_0000_0000_0000_0000_0000_0000_0000_0000, g[5]);
    MulGroups(0x1_0000_0000_0000_0000_0000_0000_0000_0000, x, g[5]);
    MulGroups(x, 0x200_0000_0000_0000_0000_0000_0000_0000_0000_0000, g[6]);
    MulGroups(0x200_0000_0000_0000_0000_0000_0000_0000_0000_0000, x, g[6]);
    MulGroups(x, 0x8_0000_0000_0000_0000_0000_0000_0000_0000_0000_0000_0000, g[7]);
    MulGroups(0x8_0000_0000_0000_0000_0000_0000_0000_0000_0000_0000_0000, x, g[7]);
    MulGroups(x, 0x1000_0000_0000_0000_0000_0000_0000_0000_0000_0000_0000_0000_0000, g[8]);
    MulGroups(0x1000_0000_0000_0000_0000_0000_0000_0000_0000_0000_0000_0000_0000, x, g[8]);
    MulGroups(x, 0x40_0000_0000_0000_0000_0000_0000_0000_0000_0000_0000_0000_0000_0000_0000, g[9]);
    MulGroups(0x40_0000_0000_0000_0000_0000_0000_0000_0000_0000_0000_0000_0000_0000_0000, x, g[9]);
  }

  // The same products as they are added to the columns: moved up by i limbs and
  // round, where the limbs that come round count 19 times.
  ghost predicate Turned(p: seq<int>, row: seq<int>, i: nat)
    requires i < 10
  {
    && |p| == |row| == 10
    && forall k | 0 <= k < 10 ::
         var j := Partner(k, i);
         var once := if i % 2 == 1 && j % 2 == 1 then 2 * p[j] else p[j];
         row[k] == if i > k then 19 * once else once
  }

  lemma Turned0(p: seq<int>, row: seq<int>) returns (k: int)
    requires Turned(p, row, 0)
    ensures FieldValue(row) == 0x1 * FieldValue(p) - P * k
  {
    k := 0;
  }

  lemma Turned1(p: seq<int>, row: seq<int>) returns (k: int)
    requires Turned(p, row, 1)
    ensures FieldValue(row) == 0x400_0000 * FieldValue(p) - P * k
  {
    k := 0x2 * p[9];
  }

  lemma Turned2(p: seq<int>, row: seq<int>) returns (k: int)
    requires Turned(p, row, 2)
    ensures FieldValue(row) == 0x8_0000_0000_0000 * FieldValue(p) - P * k
  {
    k := p[8] + 0x400_0000 * p[9];
  }

  lemma Turned3(p: seq<int>, row: seq<int>) returns (k: int)
    requires Turned(p, row, 3)
    ensures FieldValue(row) == 0x2000_0000_0000_0000_0000 * FieldValue(p) - P * k
  {
    k := 0x2 * p[7] + 0x400_0000 * p[8] + 0x10_0000_0000_0000 * p[9];
  }

  lemma Turned4(p: seq<int>, row: seq<int>) returns (k: int)
    requires Turned(p, row, 4)
    ensures FieldValue(row) == 0x40_0000_0000_0000_0000_0000_0000 * FieldValue(p) - P * k
  {
    k := p[6] + 0x400_0000 * p[7] + 0x8_0000_0000_0000 * p[8] + 0x2000_0000_0000_0000_0000 * p[9];
  }

  lemma Turned5(p: seq<int>, row: seq<int>) returns (k: int)
    requires Turned(p, row, 5)
    ensures FieldValue(row) == 0x1_0000_0000_0000_0000_0000_0000_0000_0000 * FieldValue(p) - P * k
  {
    k := 0x2 * p[5] + 0x400_0000 * p[6] + 0x10_0000_0000_0000 * p[7] + 0x2000_0000_0000_0000_0000 * p[8]
      + 0x80_0000_0000_0000_0000_0000_0000 * p[9];
  }

  lemma Turned6(p: seq<int>, row: seq<int>) returns (k: int)
    requires Turned(p, row, 6)
    ensures FieldValue(row) == 0x200_0000_0000_0000_0000_0000_0000_0000_0000_0000 * FieldValue(p) - P * k
  {
    k := p[4] + 0x400_0000 * p[5] + 0x8_0000_0000_0000 * p[6] + 0x2000_0000_0000_0000_0000 * p[7]
      + 0x40_0000_0000_0000_0000_0000_0000 * p[8] + 0x1_0000_0000_0000_0000_0000_0000_0000_0000 * p[9];
  }

  lemma Turned7(p: seq<int>, row: seq<int>) returns (k: int)
    requires Turned(p, row, 7)
    ensures FieldValue(row) == 0x8_0000_0000_0000_0000_0000_0000_0000_0000_0000_0000_0000 * FieldValue(p) - P * k
  {
    k := 0x2 * p[3] + 0x400_0000 * p[4] + 0x10_0000_0000_0000 * p[5] + 0x2000_0000_0000_0000_0000 * p[6]
      + 0x80_0000_0000_0000_0000_0000_0000 * p[7] + 0x1_0000_0000_0000_0000_0000_0000_0000_0000 * p[8]
      + 0x400_0000_0000_0000_0000_0000_0000_0000_0000_0000 * p[9];
  }

  lemma Turned8(p: seq<int>, row: seq<int>) returns (k: int)
    requires Turned(p, row, 8)
    ensures FieldValue(row) ==
      0x1000_0000_0000_0000_0000_0000_0000_0000_0000_0000_0000_0000_0000 * FieldValue(p) - P * k
  {
    k := p[2] + 0x400_0000 * p[3] + 0x8_0000_0000_0000 * p[4] + 0x2000_0000_0000_0000_0000 * p[5]
      + 0x40_0000_0000_0000_0000_0000_0000 * p[6] + 0x1_0000_0000_0000_0000_0000_0000_0000_0000 * p[7]
      + 0x200_0000_0000_0000_0000_0000_0000_0000_0000_0000 * p[8]
      + 0x8_0000_0000_0000_0000_0000_0000_0000_0000_0000_0000_0000 * p[9];
  }

  lemma Turned9(p: seq<int>, row: seq<int>) returns (k: int)
    requires Turned(p, row, 9)
    ensures FieldValue(row) ==
      0x40_0000_0000_0000_0000_0000_0000_0000_0000_0000_0000_0000_0000_0000_0000 * FieldValue(p) - P * k
  {
    k := 0x2 * p[1] + 0x400_0000 * p[2] + 0x10_0000_0000_0000 * p[3] + 0x2000_0000_0000_0000_0000 * p[4]
      + 0x80_0000_0000_0000_0000_0000_0000 * p[5] + 0x1_0000_0000_0000_0000_0000_0000_0000_0000 * p[6]
      + 0x400_0000_0000_0000_0000_0000_0000_0000_0000_0000 * p[7]
      + 0x8_0000_0000_0000_0000_0000_0000_0000_0000_0000_0000_0000 * p[8]
      + 0x2000_0000_0000_0000_0000_0000_0000_0000_0000_0000_0000_0000_0000 * p[9];
  }

  // 2^26, 2^51, 2^77 and so on
  function Place(i: nat): int
    requires i < 10
  {
    if i == 0 then 1
    else if i == 1 then 0x400_0000
    else if i == 2 then 0x8_0000_0000_0000
    else if i == 3 then 0x2000_0000_0000_0000_0000
    else if i == 4 then 0x40_0000_0000_0000_0000_0000_0000
    else if i == 5 then 0x1_0000_0000_0000_0000_0000_0000_0000_0000
    else if i == 6 then 0x200_0000_0000_0000_0000_0000_0000_0000_0000_0000
    else if i == 7 then 0x8_0000_0000_0000_0000_0000_0000_0000_0000_0000_0000_0000
    else if i == 8 then 0x1000_0000_0000_0000_0000_0000_0000_0000_0000_0000_0000_0000_0000
    else 0x40_0000_0000_0000_0000_0000_0000_0000_0000_0000_0000_0000_0000_0000_0000
  }

  function Cells(f: seq<int>, g: seq<int>, i: nat): (row: seq<int>)
    requires |f| == |g| == 10 && i < 10
    ensures |row| == 10 && forall k | 0 <= k < 10 :: row[k] == Cell(f, g, k, i)
  {
    seq(10, k requires 0 <= k < 10 => Cell(f, g, k, i))
  }

  function ColumnsFrom(f: seq<int>, g: seq<int>, i: nat): (h: seq<int>)
    requires |f| == |g| == 10 && i <= 10
    ensures |h| == 10 && forall k | 0 <= k < 10 :: h[k] == Column(f, g, k, i)
  {
    seq(10, k requires 0 <= k < 10 => Column(f, g, k, i))
  }

  lemma MulScaled(x: int, y: int)
    ensures Mul64(2 * x, y) == 2 * Mul64(x, y)
    ensures Mul64(x, 19 * y) == 19 * Mul64(x, y)
    ensures Mul64(2 * x, 19 * y) == 19 * (2 * Mul64(x, y))
  {
  }

  lemma CellsTurned(f: seq<int>, g: seq<int>, i: nat)
    requires |f| == |g| == 10 && i < 10
    ensures Turned(Row(f[i], g), Cells(f, g, i), i)
  {
    hide Mul64;
    forall k | 0 <= k < 10
      ensures var j := Partner(k, i);
        var once := if i % 2 == 1 && j % 2 == 1 then 2 * Row(f[i], g)[j] else Row(f[i], g)[j];
        Cells(f, g, i)[k] == if i > k then 19 * once else once
    {
      MulScaled(f[i], g[Partner(k, i)]);
    }
  }

  // One row, as a multiple of the value of g and of p.
  lemma CellsValue(f: seq<int>, g: seq<int>, i: nat) returns (k: int)
    requires |f| == |g| == 10 && i < 10
    ensures FieldValue(Cells(f, g, i)) == Place(i) * FieldValue(Row(f[i], g)) - P * k
  {
    hide FieldValue, Turned, Row, Cells;
    CellsTurned(f, g, i);
    var p, row := Row(f[i], g), Cells(f, g, i);
    if i == 0 {
      k := Turned0(p, row);
    } else if i == 1 {
      k := Turned1(p, row);
    } else if i == 2 {
      k := Turned2(p, row);
    } else if i == 3 {
      k := Turned3(p, row);
    } else if i == 4 {
      k := Turned4(p, row);
    } else if i == 5 {
      k := Turned5(p, row);
    } else if i == 6 {
      k := Turned6(p, row);
    } else if i == 7 {
      k := Turned7(p, row);
    } else if i == 8 {
      k := Turned8(p, row);
    } else {
      k := Turned9(p, row);
    }
  }

  lemma SumValue(x: seq<int>, y: seq<int>, z: seq<int>)
    requires |x| == |y| == |z| == 10 && forall k | 0 <= k < 10 :: z[k] == x[k] + y[k]
    ensures FieldValue(z) == FieldValue(x) + FieldValue(y)
  {
  }

  // The limbs of f from i on, each at its place, times g.
  function PlacesFrom(f: seq<int>, g: int, i: nat): int
    requires |f| == 10 && i <= 10
    decreases 10 - i
  {
    if i == 10 then 0 else Place(i) * Mul64(g, f[i]) + PlacesFrom(f, g, i + 1)
  }

  lemma PlacesAll(f: seq<int>, g: int)
    requires |f| == 10
    ensures PlacesFrom(f, g, 0) == FieldValue(Row(g, f))
  {
    hide Mul64;
  }

  lemma {:induction false} ColumnsValue(f: seq<int>, g: seq<int>, i: nat) returns (k: int)
    requires |f| == |g| == 10 && i <= 10
    ensures FieldValue(ColumnsFrom(f, g, i)) == PlacesFrom(f, FieldValue(g), i) - P * k
    decreases 10 - i
  {
    hide FieldValue, Place, Cells, Row;
    if i == 10 {
      k := 0;
      NoColumns(f, g);
    } else {
      var a := CellsValue(f, g, i);
      var b := ColumnsValue(f, g, i + 1);
      k := a + b;
      SumValue(Cells(f, g, i), ColumnsFrom(f, g, i + 1), ColumnsFrom(f, g, i));
      RowValue(f[i], g);
      assert Mul64(FieldValue(g), f[i]) == f[i] * FieldValue(g);
    }
  }

  lemma NoColumns(f: seq<int>, g: seq<int>)
    requires |f| == |g| == 10
    ensures FieldValue(ColumnsFrom(f, g, 10)) == 0
  {
  }

  // What fe_mul adds up is the product, less a multiple of 2^255 - 19.
  lemma ProductValue(f: seq<int>, g: seq<int>) returns (k: int)
    requires |f| == |g| == 10
    ensures FieldValue(MulColumns(f, g)) == FieldValue(f) * FieldValue(g) - P * k
  {
    hide FieldValue, Place, MulColumns, Column, PlacesFrom, Row;
    MulColumnsAre(f, g);
    k := ColumnsValue(f, g, 0);
    assert MulColumns(f, g) == ColumnsFrom(f, g, 0);
    PlacesAll(f, FieldValue(g));
    RowValue(FieldValue(g), f);
  }
}
