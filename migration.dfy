/** The content migration of `resize` in main.js: every cell `(x, y)` of the
    new grid takes the value at flat index `x + y * oldW` of the old array,
    where an index past the old array yields `undefined`, stored as 0. */
module Migration {
  import opened Cells

  /** Flat index of column `x`, row `y` in a grid `w` cells wide. */
  function Flat(x: int, y: int, w: int): int
  {
    x + y * w
  }

  /** A positive multiple of `w` is at least `w`. */
  lemma {:induction false} MulAtLeast(k: int, w: int)
    requires k >= 1 && w > 0
    ensures k * w >= w
    decreases k
  {
    if k > 1 {
      MulAtLeast(k - 1, w);
      assert k * w == (k - 1) * w + w;
    }
  }

  /** The column and row of a flat index are recovered by `%` and `/`. */
  lemma FlatDivMod(x: int, y: int, w: int)
    requires 0 <= x < w && 0 <= y
    ensures Flat(x, y, w) % w == x && Flat(x, y, w) / w == y
  {
    var i := Flat(x, y, w);
    var q, r := i / w, i % w;
    assert q * w + r == y * w + x;
    assert (q - y) * w == x - r;
    if q > y {
      MulAtLeast(q - y, w);
    } else if q < y {
      MulAtLeast(y - q, w);
    }
  }

  /** Multiplying by a non-negative `w` keeps the order. */
  lemma {:induction false} MulMono(a: int, b: int, w: int)
    requires a <= b && w >= 0
    ensures a * w <= b * w
  {
    assert b * w - a * w == (b - a) * w;
    if b > a && w > 0 {
      MulAtLeast(b - a, w);
    }
  }

  /** Every flat index of a `w` by `h` grid is the cell `(i % w, i / w)`. */
  lemma FlatOf(i: int, w: nat, h: nat)
    requires 0 <= i < w * h
    ensures w > 0
    ensures 0 <= i % w < w && 0 <= i / w < h && Flat(i % w, i / w, w) == i
  {
    if i / w >= h {
      MulMono(h, i / w, w);
    }
  }

  /** The index after the last cell of row `y` is the first of row `y + 1`. */
  lemma FlatNextRow(y: int, w: int)
    ensures Flat(w, y, w) == Flat(0, y + 1, w)
  {
  }

  /** The first cell of row `h` is the end of an `h`-row grid. */
  lemma FlatRows(h: int, w: int)
    ensures Flat(0, h, w) == w * h
  {
  }

  /** A cell of a `w` by `h` grid has a flat index inside the grid. */
  lemma FlatInGrid(x: int, y: int, w: int, h: int)
    requires 0 <= x < w && 0 <= y < h
    ensures 0 <= Flat(x, y, w) < w * h
  {
    assert y * w + w <= h * w by {
      assert (y + 1) * w <= h * w;
    }
  }

  /** The arrays `resize` builds for a `newW` by `newH` grid from `prev`, whose
      rows were `oldW` cells wide. */
  function Migrate(prev: seq<Byte>, oldW: nat, newW: nat, newH: nat): (r: seq<Byte>)
    ensures |r| == newW * newH
  {
    seq(newW * newH, i requires 0 <= i < newW * newH => ReadOr0(prev, Flat(i % newW, i / newW, oldW)))
  }

  /** New cell `(x, y)` holds the old array's value at `x + y * oldW`, or 0
      past its end. */
  lemma MigrateAt(prev: seq<Byte>, oldW: nat, newW: nat, newH: nat, x: int, y: int)
    requires 0 <= x < newW && 0 <= y < newH
    ensures 0 <= Flat(x, y, newW) < newW * newH
    ensures Migrate(prev, oldW, newW, newH)[Flat(x, y, newW)] == ReadOr0(prev, Flat(x, y, oldW))
  {
    FlatInGrid(x, y, newW, newH);
    FlatDivMod(x, y, newW);
  }

  /** Cells inside both the old and the new grid keep their value. */
  lemma MigrateKeepsOverlap(prev: seq<Byte>, oldW: nat, oldH: nat, newW: nat, newH: nat, x: int, y: int)
    requires |prev| == oldW * oldH
    requires 0 <= x < oldW && x < newW && 0 <= y < oldH && y < newH
    ensures 0 <= Flat(x, y, newW) < newW * newH
    ensures 0 <= Flat(x, y, oldW) < |prev|
    ensures Migrate(prev, oldW, newW, newH)[Flat(x, y, newW)] == prev[Flat(x, y, oldW)]
  {
    MigrateAt(prev, oldW, newW, newH, x, y);
    FlatInGrid(x, y, oldW, oldH);
  }

  /** A resize to the same dimensions leaves the arrays as they were. */
  lemma MigrateSameSize(prev: seq<Byte>, w: nat, h: nat)
    requires |prev| == w * h
    ensures Migrate(prev, w, w, h) == prev
  {
    var r := Migrate(prev, w, w, h);
    forall i | 0 <= i < |prev| ensures r[i] == prev[i] {
      assert w > 0;
      assert Flat(i % w, i / w, w) == i;
    }
  }

  /** As written, widening the grid does not empty the new columns: a new
      cell `(x, y)` past the old width `oldW` reads the old cell
      `(x - oldW, y + 1)` of the next row, so that old cell shows up twice in
      the new grid, also at its own place `(x - oldW, y + 1)`. With a 1 by 2
      grid of sand widened to 2 by 2, the column of two grains becomes three. */
  lemma WideningReadsNextRow(prev: seq<Byte>, oldW: nat, oldH: nat, newW: nat, newH: nat, x: int, y: int)
    requires |prev| == oldW * oldH
    requires oldW <= x < newW && x - oldW < oldW && 0 <= y && y + 1 < oldH && y + 1 < newH
    ensures 0 <= Flat(x, y, newW) < newW * newH && 0 <= Flat(x - oldW, y + 1, newW) < newW * newH
    ensures 0 <= Flat(x - oldW, y + 1, oldW) < |prev|
    ensures Migrate(prev, oldW, newW, newH)[Flat(x, y, newW)] == prev[Flat(x - oldW, y + 1, oldW)]
    ensures Migrate(prev, oldW, newW, newH)[Flat(x - oldW, y + 1, newW)] == prev[Flat(x - oldW, y + 1, oldW)]
  {
    MigrateAt(prev, oldW, newW, newH, x, y);
    MigrateKeepsOverlap(prev, oldW, oldH, newW, newH, x - oldW, y + 1);
    assert Flat(x, y, oldW) == Flat(x - oldW, y + 1, oldW);
  }

  /** The intended migration: the overlap of the old
      `oldW` by `oldH` grid and the new one is kept, every other new cell is 0. */
  function Clip(prev: seq<Byte>, oldW: nat, oldH: nat, newW: nat, newH: nat): (r: seq<Byte>)
    requires |prev| == oldW * oldH
    ensures |r| == newW * newH
  {
    seq(newW * newH, i requires 0 <= i < newW * newH =>
      var x, y := i % newW, i / newW;
      if x < oldW && y < oldH then ReadOr0(prev, Flat(x, y, oldW)) else 0)
  }

  /** `Clip` keeps the overlap and empties everything outside the old grid. */
  lemma ClipAt(prev: seq<Byte>, oldW: nat, oldH: nat, newW: nat, newH: nat, x: int, y: int)
    requires |prev| == oldW * oldH
    requires 0 <= x < newW && 0 <= y < newH
    ensures 0 <= Flat(x, y, newW) < newW * newH
    ensures x < oldW && y < oldH ==>
              0 <= Flat(x, y, oldW) < |prev| && Clip(prev, oldW, oldH, newW, newH)[Flat(x, y, newW)] == prev[Flat(x, y, oldW)]
    ensures !(x < oldW && y < oldH) ==> Clip(prev, oldW, oldH, newW, newH)[Flat(x, y, newW)] == AIR
  {
    FlatInGrid(x, y, newW, newH);
    FlatDivMod(x, y, newW);
    if x < oldW && y < oldH {
      FlatInGrid(x, y, oldW, oldH);
    }
  }

  /** The code as written agrees with `Clip` whenever the grid does not
      widen: only new columns past the old width read the wrong cells. */
  lemma MigrateIsClipUnlessWidening(prev: seq<Byte>, oldW: nat, oldH: nat, newW: nat, newH: nat)
    requires |prev| == oldW * oldH && newW <= oldW
    ensures Migrate(prev, oldW, newW, newH) == Clip(prev, oldW, oldH, newW, newH)
  {
    var m, c := Migrate(prev, oldW, newW, newH), Clip(prev, oldW, oldH, newW, newH);
    forall i | 0 <= i < newW * newH ensures m[i] == c[i] {
      FlatOf(i, newW, newH);
      var x, y := i % newW, i / newW;
      MigrateAt(prev, oldW, newW, newH, x, y);
      ClipAt(prev, oldW, oldH, newW, newH, x, y);
      if y >= oldH {
        MulMono(oldH, y, oldW);
      }
    }
  }
}
